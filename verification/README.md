# SBPFS: models and proofs

SBPFS is a small distributed file system. A control node keeps the directory tree and, for every
file, a table of 16 MiB blocks; data nodes keep the blocks; clients ask the control node where the
bytes of a file are and then talk to the data nodes. This project models its core in Dafny and
proves what the parts promise each other.

**The control node's file system** (`c_node/fs/cfs.c`) is the largest part. `Bytes`, `Codec`, `Fat`,
`Sectors` and `Disk` model the in-memory image: a superblock, a file allocation table and 512-byte
sectors; files are chains of sectors that are freed and grown again when they are written, in an
image that doubles when it is full; `Room` says when it does and when it cannot. `Directory`,
`Tree`, `Image`, `Changes` and `Growth` say what directory buffers hold and when an image holds a
given tree. `Paths`, `Lookup`, `Create`, `Cfs`, `Delete`, `Attrs`, `Format`, `Extents`, `Blocks` and
`FileIO` are the operations, as methods on the disk, each proved to do what `Ops` (for the tree) or
`FileIO` (for the blocks of a file) specifies. `Runs` is the resulting state machine, `Execution`
shows that the code follows it over whole runs from a fresh format on, and `Balance` and
`Guarantees` draw the conclusions. `Permissions` and `Spelling` say the same answers once more in
terms of mode bits and of the names in a path. `Reset` is what happens when a free sector is freed,
and `Orphan` what a write to a removed file does.

**The data path**: `DataNode` is a data node's block store, `Replication` the client's write-all and
read-any loops over it, `Registry` what the control node knows of the nodes' blocks, `FileData` and
`Transfer` the way of a file from `put` to `get`, and `Chunks` what becomes of it when chunks fail.

**Two smaller parts**: `Header`, `HeaderParsers` and `Receive` are the message heads, their parsers
in C and Python, and the framing of messages on a socket, `Numbers` the text of their length fields,
`Literals` their spelling, and `StaleBuffer` what an uncleared buffer can do to the framing;
`Descriptors` are the pools of descriptors.

How the model stands to the code: the image is the fields `fat` and `data` of a `Disk`, which its
methods reassign; byte buffers that the C code edits in place are arrays. The ghost fields `chains`
and `tree` say which sectors a path has and what users see; no code depends on them. An operation
answers `ok == false` where the original would loop for ever, because the doubled size of the image
no longer fits in 32 bits; each contract says when that can happen (`Room.Fits`), and formatting,
`remove` and `rmdir` have no such answer. The calls to data nodes take their outcomes (done, done
without an answer, not done) as parameters, and so do the answers to reads; how a message is cut
into pieces is left open. The clock is a parameter.

Where the code and its intent part, the code is modelled, and the theorem says exactly when it does
what it should: pieces of reads and writes over several blocks (`Extents.ReadTiles`,
`Extents.WriteTiles`, and for the client's answers `FileData.ReplyFits` and `FileData.ReadTotal`),
block counts beyond an int (`Extents.CountExact`), chunks that fail (`Transfer.Put`,
`Chunks.AllExact`), `rmdir` of an empty directory from itself and writes to a removed file, which
lose sector 0 (`Delete.CRmdir`, `Orphan.RemoveThenWrite`), paths such as `//x` (`Ops.CutIsFold`,
`Ops.DoubleSlash`), heads whose fields hold line ends (`Header.HeadRoundTrip`), and a receive buffer
that is not cleared (`StaleBuffer.BufferExact`). `get` does not notice a failed read, because the
Python module hands out the buffer whatever `sbp_read` returned (`libpy/sbpfs_py.c:114-130`);
`Transfer.Get` says what its result is worth.

## Model

| member | source | states |
|---|---|---|
| `Codec.MetaRoundTrip` | c_node/fs/cfs.h:101-113 | The 64 bytes of a file's meta data decode to the fields they were encoded from, whatever follows them, at the offsets of the C struct. |
| `Codec.MetaBytesRoundTrip` | c_node/fs/cfs.h:101-113 | The other way round: encoding the decoded meta data gives back the same 64 bytes, so no field overlaps another and none is lost. |
| `Codec.EntryRoundTrip` | c_node/fs/cfs.h:80-85 | The same for the 16 bytes of a directory entry. |
| `Codec.BlockRoundTrip` | c_node/fs/cfs.h:117-124 | The same for the 32 bytes of a block descriptor. |
| `Codec.Layout` | c_node/fs/cfs.h:80-124 | Each field of the three structures is the little-endian number at its own offset. |
| `Disk.GeometryExact` | c_node/fs/cfs.c:1366-1379 | For an image of T sectors the FAT takes ceil(4T/512) sectors, fatNum = T - 1 - ceil(4T/512), and superblock, FAT and data area fill the image exactly. |
| `Disk.LargerImage` | c_node/fs/cfs.c:1319-1336 | The geometry extend computes for a larger image is again exact, loses no data sector, and has strictly more of them when the size is doubled. |
| `Disk.Disk.constructor` | c_node/fs/cfs.c:1362-1384 | A formatted image of 32 KiB has 62 data sectors, sector 0 reserved and every other sector free. |
| `Disk.Disk.NextFreeFat` | c_node/fs/cfs.c:1538-1546 | The answer is the least free sector from base on, or -1 exactly when there is none below fatNum. |
| `Disk.Disk.Extend` | c_node/fs/cfs.c:1311-1360 | A larger size moves the image: every old link and every old sector survives, new links are free, and fatNum grows strictly when the size doubles; a size that is not larger changes nothing. |
| `Disk.Disk.Double` | c_node/fs/cfs.c:1212-1216 | Doubling in 32-bit arithmetic is refused exactly when twice the size no longer fits in 32 bits. |
| `Disk.Disk.Allocate` | c_node/fs/cfs.c:1407-1411 | If a sector from base on is free, the least one is the answer and nothing changes; if none is, the image is doubled exactly once and the answer is its first new sector. It succeeds if and only if there was a free one or twice the size fits in 32 bits (where it does not, the C code goes on for ever). |
| `Disk.Disk.ResetFat` | c_node/fs/cfs.c:1170-1178 | Frees exactly the sectors of the walk that starts at fb, and ends. |
| `Disk.Disk.WriteChain` | c_node/fs/cfs.c:1205-1221 | From a free first sector on, as many sectors as asked for are linked upward, none of them in use before, each holding its share of the data, also when the u64 counter of remaining bytes wraps; nothing else changes. It succeeds if and only if an image of at most 2 GiB has room, counting the free sectors above the first one, and the image is doubled just until it has. |
| `Disk.Disk.DoWriteFile` | c_node/fs/cfs.c:1199-1222 | The file keeps its first sector, its chain gets as many sectors as the meta data say and holds the data, and every other file keeps its chain and its sectors. It succeeds, and the image grows, under the same exact condition, on the table before the call. |
| `Disk.Disk.DoReadFile` | c_node/fs/cfs.c:1224-1235 | The buffer gets the sectors of the chain in order; the loop ends. |
| `Room.FitsExact` | c_node/fs/cfs.c:1205-1216 | What that condition amounts to: up to 62 sectors an image of 32 KiB is never made larger, and by doubling it comes to have room for up to 4161535 of them and no more. |
| `Fat.LinkingDone` | c_node/fs/cfs.c:1205-1221 | Linking free sectors upward adds one chain to a partition of the sectors in use: chains stay disjoint and account for every sector in use but sector 0. |
| `Fat.FreedDone` | c_node/fs/cfs.c:1170-1178 | Freeing one chain takes exactly that chain out of the partition. |
| `Guarantees.WriteThenRead` | c_node/fs/cfs.c:1199-1235 | do_readfile after do_writefile returns the bytes written, and the write succeeds if and only if the image has room or can get it. |
| `Guarantees.OthersReadSame` | c_node/fs/cfs.c:1199-1222 | After a file has been written every other file still reads the same, even if the image was moved and freed sectors were taken again. |
| `Guarantees.SectorsAccounted` | c_node/fs/cfs.c:1170-1222 | No leak and no sharing, on every disk a run can reach: a sector is in use exactly if it is sector 0 or belongs to the chain of a file of the tree, and of one file only. |
| `Guarantees.ChainIsFile` | c_node/fs/cfs.c:1224-1235 | Every file's chain starts at its head and is as long as the block count in its meta data. |
| `Guarantees.LinksGoUp` | c_node/fs/cfs.c:1538-1546 | Every link is free, an end, or leads to a higher sector below fatNum, so no chain has a cycle. |
| `Reset.ResetKeepsRoot` | c_node/fs/cfs.c:1170-1178 | reset_fat from a sector keeps the reserved sector 0 if and only if that sector is in use. |
| `Reset.FreedTwice` | c_node/fs/cfs.c:1170-1222 | When a head that is free already is freed once more and then written anew, sector 0 becomes free and stays free, and no set of files accounts for the table any more. |
| `Delete.DropItself` | c_node/fs/cfs.c:1144-1163 | The tail of rmdir on an empty directory that is removed from itself, step by step on the disk: it always ends, without growing the image, and with sector 0 lost. |
| `Guarantees.SelfRemoval` | c_node/fs/cfs.c:1103-1163 | The concrete input: rmdir of "/." on a fresh disk passes every check and takes no path away. |
| `Guarantees.RemoveRoot` | c_node/fs/cfs.c:1096-1168 | The same input through the code: formatting and then rmdir of "/." always succeeds, answers 0 and leaves a table whose sector 0 is lost. |
| `Reset.DoWriteFree` | c_node/fs/cfs.c:1199-1222 | do_writefile on a head that is free succeeds if and only if there is room, frees sector 0 and leaves a table that no set of files accounts for. |
| `Orphan.CWriteOrphan` | c_node/fs/cfs.c:727-849 | A write through a descriptor whose file has been removed, while its head is still free: refused and without effect if it starts beyond the old length; otherwise it goes through if and only if there is room, and sector 0 is lost. |
| `Orphan.RemoveThenWrite` | c_node/fs/cfs.c:455-849 | The same from the removal on: the head is free just if no file left has its sector, and its meta data are still those of the removed file. |
| `Directory.FindEntryByName` | c_node/fs/cfs.c:1237-1250 | Finds an entry with the name if and only if the directory lists one. |
| `Directory.InsertedLists` | c_node/fs/cfs.c:1063-1088 | After an insert the buffer lists the old entries in order and then the new one, all names found under their offsets, unique and NUL-terminated, and flen = 64 + strbase + strlen. |
| `Directory.AppendEntry` | c_node/fs/cfs.c:1063-1088 | The copying done in c_mkdir and c_open builds exactly those bytes, the count in the meta data raised by c_mkdir only. |
| `Directory.RemovedLists` | c_node/fs/cfs.c:1180-1197 | After a removal the buffer lists the other entries in order and not the removed one; their names resolve although the string pool has moved and still holds the old name. |
| `Directory.DoRemoveEntry` | c_node/fs/cfs.c:1180-1197 | The in-place shift on the buffer gives exactly those bytes, write time included, with the 16 bytes behind the live ones, from the memory beyond a full buffer if need be, moved along. |
| `Delete.CountDrifts` | c_node/fs/cfs.c:498-505 | Making an entry and removing it again restores the count of a directory if and only if the entry is a directory's: c_open does not count files up, c_remove counts them down. |
| `Tree.AddChildWellFormed` | c_node/fs/cfs.c:1063-1088 | Adding an entry to a directory keeps the tree a tree and adds one path. |
| `Tree.RemoveChildWellFormed` | c_node/fs/cfs.c:1154-1163 | Removing a file or an empty directory keeps the tree a tree and removes one path. |
| `Tree.ResolveExact` | c_node/fs/cfs.c:1252-1309 | Looking up proper names leads to the path they spell if and only if it is in the tree. |
| `Tree.ResolveAfterAdd` | c_node/fs/cfs.c:1252-1309 | Whatever led somewhere before an entry was added, with "." and ".." too, still leads there; what leads somewhere only now has the new name in it. |
| `Tree.ResolveAfterRemove` | c_node/fs/cfs.c:1252-1309 | What still leads somewhere after a removal led there before; what no longer does has the removed name in it. |
| `Tree.WalkLast` | c_node/fs/cfs.c:1252-1295 | Following components is following all but the last one and then taking one step. |
| `Ops.ResolveAfterLoss` | c_node/fs/cfs.c:1252-1309 | The exact form for any components, "." and ".." too: a lookup ends with a removal if and only if it meets the removed path on its way, and any other answers as before. |
| `Ops.ResolveAfterGain` | c_node/fs/cfs.c:1252-1309 | And an addition begins exactly the lookups that meet the added path. |
| `Paths.CutAgrees` | c_node/fs/cfs.c:197-215 | For a path that starts with a slash, cutting off the last component and looking up the rest follows the path's components, if and only if the path is not an empty component followed by one more ("//x"). |
| `Ops.CutIsFold` | c_node/fs/cfs.c:197-215 | So for the lookup: cutting the name, looking up the parent and taking the step is folding the steps over all the components, outside the shape "//x". |
| `Ops.DoubleSlash` | c_node/fs/cfs.c:197-215 | In that shape the cut takes x from the root, the components take it from the entry with the empty name. |
| `Paths.GetFilenameFromPath` | c_node/fs/cfs.c:197-215 | The in-place cut leaves two C strings, the directory part and the last component, with one trailing slash dropped; no slash means no cut. |
| `Paths.CutFirst` | c_node/fs/cfs.c:1271-1277 | The in-place cut at the first slash leaves the first component and the rest. |
| `Lookup.FindIn` | c_node/fs/cfs.c:1279-1287 | A name found in the bytes of a directory is a step in the tree: itself, its parent or the child of that name, with that file's head and kind; not found means no step. |
| `Lookup.CFindEntry` | c_node/fs/cfs.c:1252-1295 | The recursion ends, and answers with head and kind of the path that folding the steps over the split components leads to, or 1. |
| `Lookup.CLookup` | c_node/fs/cfs.c:1297-1309 | The same from the root, for any path string. |
| `Spelling.SpelledLookup` | c_node/fs/cfs.c:197-215 | A path spelled as a slash before each proper name leads to that path of the tree, and its cut to the directory above it and the last name, if and only if they are in the tree. |
| `Spelling.SpellComps` | c_node/fs/cfs.c:1297-1309 | Such a string has the names as its components, with the first slash or without it. |
| `Spelling.Dots` | c_node/fs/cfs.c:1252-1295 | "." leads to the directory itself and ".." to the one above it, at the root to the root. |
| `Changes.RewriteRepresents` | c_node/fs/cfs.c:1199-1222 | Rewriting one file changes the tree that the image holds at that path only. |
| `Growth.AddRepresents` | c_node/fs/cfs.c:1026-1094 | A new chain and a rewritten parent turn an image of a tree into an image of the tree with one path more; nothing reachable is lost. |
| `Growth.RemoveRepresents` | c_node/fs/cfs.c:455-510 | A freed chain and a rewritten parent turn it into an image of the tree with one path less. |
| `Create.InitDir` | c_node/fs/cfs.c:1451-1536 | If and only if one more sector can be had, a new chain of one sector holds an empty directory with its entries "." and ".."; no other file is touched. |
| `Create.InitFile` | c_node/fs/cfs.c:1394-1449 | Under the same condition a new chain of one sector holds an empty file. |
| `Format.OpenDisk` | c_node/fs/cfs.c:1362-1392 | Formatting always succeeds: a fresh disk of 32 KiB holds the tree with an empty root directory, whose entry is in sector 0, and uses sectors 0 and 1 only. |
| `Cfs.CMkdir` | c_node/fs/cfs.c:1026-1094 | On disk and in its answer, mkdir is the mkdir of the tree, with every error case, and every path keeps its first sector. It succeeds whenever the image has room, or can be doubled to have it, for the name above the highest sector in use, and takes no more than that; a refusal always succeeds and changes no byte. |
| `Cfs.COpen` | c_node/fs/cfs.c:512-592 | The same for open, which creates the file when it is missing and changes no byte when it is there; the answer is the head of the file. |
| `Delete.CutEntry` | c_node/fs/cfs.c:498-505 | Frees the chain, lowers the count and cuts the entry out of the parent's buffer, which then stands for the parent without that entry. |
| `Delete.DropEntry` | c_node/fs/cfs.c:498-506 | The tail of remove and rmdir, which needs no room: one path less, all others with their heads, although the parent's block count stays and the byte counter may wrap; sectors left free keep their bytes. |
| `Delete.CRemove` | c_node/fs/cfs.c:455-510 | On disk and in its answer, remove is the remove of the tree; it always comes to an end, never makes the image larger, and a refusal changes no byte. |
| `Delete.CRmdir` | c_node/fs/cfs.c:1096-1168 | The same for rmdir, for every path: it does what the rmdir of the tree says unless it removes an empty directory from itself, and then sector 0 is lost. |
| `Attrs.CChmod` | c_node/fs/cfs.c:1004-1024 | The same for chmod: the mode takes the place of one file's permission bits; its owner, contents and place stay. |
| `Attrs.CChown` | c_node/fs/cfs.c:974-1002 | The same for chown: only user 0 changes an owner, and only the owner changes. |
| `Permissions.DeniedExactly` | c_node/fs/cfs.c:67-84 | With the directory found, mkdir, remove and rmdir answer 4, and open -4, exactly when the mode bits say so: masks 4 and 8 for user 0 and the owner, 1 and 2 for anyone else. |
| `Permissions.ChangedWithLeave` | c_node/fs/cfs.c:455-1168 | The tree never changes by one of them unless those bits allow it. |
| `Permissions.StrangersChangeNothing` | c_node/fs/cfs.c:1026-1168 | No run of mkdir, remove and rmdir by users other than user 0 changes a fresh tree. |
| `Permissions.ChmodExactly` | c_node/fs/cfs.c:1004-1024 | chmod answers 0 exactly if the path leads to a file and the user is its owner or user 0. Then the bits of the mode are set and of the old flags only those above the permissions remain, nothing else in the tree has changed; otherwise nothing has. |
| `Permissions.ModeGrants` | c_node/fs/cfs.c:1019-1020 | After a chmod a user is granted what the mode grants him, whatever the flags were before. |
| `Permissions.ChownExactly` | c_node/fs/cfs.c:974-1002 | chown answers 0 exactly for user 0, or for an owner who names himself; then the file belongs to the new owner and nothing else has changed. |
| `Spelling.MkdirSpelled` | c_node/fs/cfs.c:1026-1094 | For spelled paths every answer of mkdir by plain conditions on the tree, in their order (no parent, parent a file, no permission, there already), and the directory it makes. |
| `Spelling.OpenSpelled` | c_node/fs/cfs.c:512-592 | The same for open. |
| `Spelling.RemoveSpelled` | c_node/fs/cfs.c:455-510 | The same for remove. |
| `Spelling.RmdirSpelled` | c_node/fs/cfs.c:1103-1168 | The same for rmdir; a spelled path is never removed from itself. |
| `Spelling.AttrsSpelled` | c_node/fs/cfs.c:974-1024 | The same for chmod and chown. |
| `Ops.MkdirAddsOne` | c_node/fs/cfs.c:1026-1094 | mkdir adds exactly one path, an empty directory listed by its parent, or changes nothing. |
| `Ops.OpenAddsOne` | c_node/fs/cfs.c:512-592 | open adds exactly one path, an empty file, or changes nothing; if it succeeds it answers for a file. |
| `Ops.RemoveRemovesOne` | c_node/fs/cfs.c:455-510 | remove takes away exactly one path, that of a file, or changes nothing. |
| `Ops.RmdirRemovesOne` | c_node/fs/cfs.c:1103-1168 | If rmdir answers 0 it takes away exactly one path, that of an empty directory, if and only if the directory is not removed from itself; otherwise it changes nothing. |
| `Guarantees.OtherLookupsKept` | c_node/fs/cfs.c:1297-1309 | After any of these, every other path looks up to the same head and kind as before, though parents were rewritten and the image may have moved. |
| `Guarantees.LookupsExact` | c_node/fs/cfs.c:1297-1309 | The same for any components, with the exact condition: the lookups that end or begin are those that meet the path removed or added, every other one gives the same head and kind. |
| `Guarantees.ChangedLookup` | c_node/fs/cfs.c:1297-1309 | The path added is found and was not before; the path removed was found and is not. |
| `Extents.CountExact` | c_node/fs/cfs.c:628-634 | The block count computed with u64 wrap-around, truncation to int and two increments is ceil((offset+length)/B) - floor(offset/B), also where the subtraction wraps, if and only if that is below 2^31; it never exceeds the caller's buffer of length/B + 2 pieces. |
| `Extents.NewCountExact` | c_node/fs/cfs.c:768-769 | The number of blocks to add, truncated to int, is right if and only if it fits an int. |
| `Extents.ReadTiles` | c_node/fs/cfs.c:637-661 | The pieces of a read are in their blocks, contiguous and cover the range exactly, if and only if there is at most one of them or the index of the first block is a multiple of 256. |
| `Extents.WriteTiles` | c_node/fs/cfs.c:772-841 | The same for the pieces of a write, if and only if the condition of WriteAligned holds. |
| `Extents.TooManyBlocks` | c_node/fs/cfs.c:761-769 | Inputs on which the counts fail: ranges of 2^31 blocks, counted as -2^31. |
| `Extents.CrossingRead` | c_node/fs/cfs.c:646-648 | An input on which it fails: the first piece of a read of blocks 1 and 2 is empty. |
| `Extents.CrossingWrite` | c_node/fs/cfs.c:826-834 | Another: a write across the end of the last block asks for the whole of the new block. |
| `FileIO.CRead` | c_node/fs/cfs.c:594-663 | For every offset and length c_read answers the pieces of the file's own blocks up to its end, every table index in range, or -1 beyond the end. |
| `FileIO.CWrite` | c_node/fs/cfs.c:727-849 | c_write appends exactly the blocks that are missing, keeps the old descriptors, answers the pieces with the right block numbers and nodes, and leaves everything else on disk as it was; a write beyond the end of the file is refused and changes nothing. It succeeds whenever there is room for the new part of the table above the highest sector in use. |
| `FileIO.AllocBlock` | c_node/fs/cfs.c:96-111 | One block: the next number, and up to three nodes round robin, stopping when the first comes again. |
| `Blocks.ReplicaCount` | c_node/fs/cfs.c:96-111 | With m different nodes every block is placed on min(3, m) different nodes of the list. |
| `Blocks.LoadBalanced` | c_node/fs/cfs.c:86-111 | After any number of allocations, from any counter, no node holds more than one replica more than another. |
| `Blocks.TurnsTaken` | c_node/fs/cfs.c:96-111 | An allocation takes three turns of the round robin, or two with a single node, and begins at the node whose turn it is. |
| `Blocks.FirstsAlternate` | c_node/fs/cfs.c:96-111 | With two nodes the first address of a block is the second one of the block before. |
| `Balance.RunBalanced` | c_node/fs/cfs.c:86-111 | Over any run, whichever files its writes are to, no node is given more than one replica more than another as long as the list of nodes is the same. |
| `Balance.BlocksFrom` | c_node/fs/cfs.c:804-846 | The blocks of the files after a run are the blocks they had and those that the run has allocated, each under its number. |
| `Runs.ApplySound` | c_node/fs/cfs.c:455-1168 | Every operation keeps the state sound: a tree, in every file exactly ceil(flen/B) blocks, all block numbers different and below the number of issued ones, live descriptors on files. |
| `Runs.RunSound` | c_node/fs/cfs.c:455-1168 | So does every run. |
| `Runs.NeverReused` | c_node/fs/cfs.c:96-111 | A block number that is out of use never comes into use again, in any run. |
| `Runs.DescriptorsExact` | c_node/fs/cfs.c:455-592 | A descriptor is added exactly when an open succeeds, open on the file answered for, and lives exactly as long as its file is in the tree. |
| `Guarantees.TablesGrow` | c_node/fs/cfs.c:804-846 | An operation leaves the blocks that a surviving file already has in place; a write only appends. |
| `Guarantees.OpenTablesGrow` | c_node/fs/cfs.c:804-846 | Over any run the file behind a live descriptor keeps all the blocks it had. |
| `Execution.Execute` | c_node/fs/cfs.c:455-1168 | Each operation of the control node takes the disk, and the heads that opens have returned, from one state of the specification to the next, whenever there is room for the few sectors its arguments can ask for. |
| `Execution.Run` | c_node/fs/cfs.c:119-1168 | So from a fresh format on: after every run the disk holds exactly the state that the specification computes. A run succeeds if its operations ask for at most 4161533 sectors in all, a number computed from their arguments, and the image stays at 32 KiB if they ask for at most 60. |
| `DataNode.DataNode.CreateBlock` | d_node/haha/blockman.c:162-177 | A new block has 16 MiB of zeros and is in the node's list. |
| `DataNode.DataNode.WriteBlock` | d_node/haha/blockman.c:136-160 | A write creates a missing block and changes exactly the bytes of its range. |
| `DataNode.DataNode.ReadBlock` | d_node/haha/blockman.c:115-134 | A read delivers the bytes of the range, leaves the buffer as it was beyond the end of the file, and refuses a missing block. |
| `DataNode.WriteToBytes` | d_node/haha/blockman.c:150-154 | Byte by byte: within the range the bytes written, outside it the bytes that were there, in this block and all others. |
| `Replication.Cluster.WritePiece` | libc/read_write.c:392-410 | k == l exactly if every node of the piece did the write and said so; then all of them hold it. Nothing outside the piece changes on any node. |
| `Replication.Cluster.WriteBlocks` | libc/read_write.c:385-419 | Write-all: success if and only if every node of every piece did it and said so; then every node holds its part of the buffer, if the pieces do not overlap. |
| `Replication.Cluster.ReadBlocks` | libc/read_write.c:237-262 | Read-any: success if and only if for every piece some node answers; then the buffer holds what all nodes of the pieces carry, whichever answered. |
| `Replication.WriteThenRead` | libc/read_write.c:237-419 | A successful read after a successful write returns the bytes written, whichever replicas answer and however the others fail. |
| `Replication.ReadableOnceWritten` | libc/read_write.c:247-257 | After a write a piece can be read if and only if it has a node that answers; a piece without nodes is taken for written but never read. |
| `Registry.Registry.AddBlockInfo` | c_node/dtree.py:161-171 | A report adds the user to exactly the blocks it lists, and sets its address. |
| `Registry.Registry.FlitRead` | c_node/dtree.py:139-159 | Each piece keeps exactly the nodes known to have reported its block; it fails if and only if some block was never reported or was reported by a user that is gone. |
| `Registry.FilteredReplicated` | c_node/dtree.py:139-159 | The filter only leaves out copies: whatever the nodes of the pieces carry, those of the filtered pieces carry. |
| `FileData.AcceptedReply` | c_node/fs/cfs.c:772-841 | A write is answered with pieces of the blocks that the file has afterwards; they tile the range of the write if and only if it is aligned in the sense of WriteTiles. |
| `FileData.ReplyFits` | c_node/fs/cfs.c:772-841 | The pieces of any accepted write have no byte in common, and together they have the length asked for if and only if the write is aligned; otherwise the client sends too few or too many bytes. |
| `FileData.ReadTotal` | c_node/fs/cfs.c:637-661 | The same for a read: as many bytes as asked for if and only if the pieces tile the range. |
| `FileData.RangeHeld` | libc/read_write.c:385-419 | Once the pieces that tile a range have reached all their nodes, the nodes hold the file with the new bytes over the old ones in that range, over any number of blocks. |
| `FileData.RangeReplicated` | libc/read_write.c:237-262 | The pieces that tile a range of an intact file carry exactly the bytes of that range. |
| `FileData.WriteIntact` | libc/read_write.c:98-108 | The same over a write of the control node and the nodes together. |
| `FileData.OthersIntact` | libc/read_write.c:385-419 | Whatever is written to one file, aligned or not, the bytes of every other file stay intact on all nodes. |
| `Transfer.SbpWrite` | libc/read_write.c:61-132 | Any write: -1 exactly if it starts beyond the end, concerns no block, or some node of some piece failed. Otherwise the pieces hold the client's bytes in order, the answer is the length asked for if and only if the write is aligned, and then the file has the new bytes in place. Every byte outside the pieces stays on every node in any case. |
| `Transfer.SbpRead` | libc/read_write.c:61-132 | Any read: it succeeds if and only if it concerns a block and for each piece the control node knows a node that has the block and answers. The answer is the number of bytes the file has of the range if and only if the pieces tile it, and then these are the file's bytes. |
| `Transfer.Put` | libpy/sbpfs.py:174-198 | put sends any bytes in chunks of 1 MiB and the rest. A chunk is written if and only if all nodes of the block at the descriptor's offset take it, the offset being 1 MiB for each chunk written so far: after a missed chunk the next one takes its place. The file then begins with the chunks written, one after the other, and beyond the next MiB it is as before; if none is missed the data lie over what it had, and if all nodes work none is. |
| `Transfer.Get` | libpy/sbpfs.py:102-125 | get always delivers as many bytes as the file has. A chunk is read if and only if the block at the descriptor's offset is reported by a node that answers, and then it is the bytes of the file at that offset, which stays behind after a failed read; if none fails the bytes are those of the file. |
| `Chunks.AllExact` | libpy/sbpfs.py:102-198 | So no chunk fails if and only if for each the block that it belongs into, the one at its own offset, can be reached. |
| `Chunks.LandedAll` | libpy/sbpfs.py:174-198 | The chunks written, if all are, make up the data again. |
| `Chunks.ProgressGoesOn` | libc/read_write.c:81-132 | One more chunk keeps what put has achieved, whether it is written or not: bytes before it and beyond its MiB stay. |
| `Transfer.PutOverThenGet` | libpy/sbpfs.py:102-198 | End to end: any bytes put over a file come back once the nodes have reported their blocks, followed by what the file had beyond them. |
| `Transfer.PutThenGet` | libpy/sbpfs.py:102-198 | In particular any bytes put into a new file come back the same; put succeeds if the image has room for a sector a chunk. |
| `Header.MakeHead` | libc/lib.c:306-349 | A head of up to 32 entries is printed into exactly the number of bytes counted before, and each copy stays within them; more entries are refused. |
| `Header.HeadRoundTrip` | libc/lib.c:251-349 | Printing and then parsing gives back title, entries and length, whatever body follows, if and only if no field has a line end in it and no name the separator. |
| `Literals.Spellings` | libc/const.h:24-40 | The names, separators and line ends the models use, in characters. |
| `Literals.SampleNumber` | d_node/haha/d_node.c:234-235 | One length as a data node prints it. |
| `Literals.ReplyHead` | libc/const.h:20-40 | The head of a data node's reply, spelled: the title, "\r\nContent-Length: ", the number, and two line ends. |
| `HeaderParsers.DecodeHead` | libc/lib.c:251-305 | The parser that cuts a copy of the head in place finds what the recursive definition says, for every C string, errors included, and stores to as many elements of its array as HeadSlots says. |
| `HeaderParsers.SlotsExact` | libc/lib.c:273-299 | A head that is decoded takes one element for each entry, so the array of 32 is overrun if and only if there are more. |
| `HeaderParsers.GetHeadEntryValue` | libc/lib.c:385-398 | The value of the first entry with the name. |
| `HeaderParsers.GenHead` | util/parse.py:21-28 | Python prints the same bytes for the same items. |
| `HeaderParsers.ParseHead` | util/parse.py:56-69 | The loop over the lines fills the dictionary that the definition by folding gives, or fails where it fails. |
| `HeaderParsers.ParsersAgree` | util/parse.py:56-69 | Where C finds a head, Python splits the same lines and has for every name but Protocol and Response the same, first, value; it fails only on a title without a word. |
| `HeaderParsers.WordsProper` | util/parse.py:56-69 | The words of a title line are not empty and hold no blank. |
| `HeaderParsers.OneWord` | util/parse.py:56-69 | A text without blanks is one word. |
| `HeaderParsers.WordsApart` | util/parse.py:56-69 | The words on both sides of a blank are the words of the whole. |
| `HeaderParsers.TitleWords` | util/parse.py:56-69 | For every head that C decodes and Python accepts, Protocol is the first word of the title and Response the second one if there are two, whatever entries follow. |
| `HeaderParsers.ProtocolLine` | util/parse.py:60-63 | So a title of one word is the Protocol, and of two words separated by a blank the first is the Protocol and the second the Response; Python accepts both. |
| `Receive.GetMissingLen` | libc/lib.c:213-249 | On any buffer, -1 until the head is complete and its length field found, then the bytes still to come: the value as atoll reads it, with blanks and sign, in sums that wrap at 64 bits. |
| `Numbers.AtollExact` | libc/lib.c:239-243 | atoll of blanks, a sign or none, and the digits of n by division and remainder, whatever follows that is no digit, is n or -n, or the nearest 64-bit number. |
| `Numbers.SignedExact` | libc/lib.c:213-249 | The sum is returned as the one signed 64-bit number that differs from it by a multiple of 2^64. |
| `Receive.MissingOfPart` | libc/lib.c:213-249 | For every part of a message it is -1 before the head is complete, or exact, in a buffer without harmful line ends. |
| `Receive.ReplyIsMessage` | d_node/haha/d_node.c:229-249 | What a data node replies, the decimal digits of the length as the only entry and then so many bytes, is a message in the sense of SbpRecv, for every length. |
| `Receive.SbpRecv` | libc/lib.c:83-160 | However a message is cut into pieces, exactly its head and the announced bytes are returned, with a zero after them, provided the uncleared buffer held no harmful line end before. |
| `StaleBuffer.JunkCutsShort` | libc/lib.c:86-108 | If the buffer happens to go on with a line end and then anything after a length line or a later one, fewer bytes are asked for than are missing. |
| `StaleBuffer.BufferExact` | libc/lib.c:86-108 | That condition on the buffer is exact: get_missing_len is right for all messages and all parts of them if and only if no line end in the 4096 bytes is harmful: at 18 to 4090, or second of two from 16 on, or followed by a length field that, taken for that of a head completed there, overruns its buffer or gives a number that is not negative. |
| `Descriptors.GenGood` | c_node/dtree.py:66-74 | gen never returns a live descriptor. |
| `Descriptors.RunGood` | c_node/dtree.py:54-88 | In every run of opens and closes the live and the recycled descriptors are disjoint, without duplicates and together 0 to count - 1, and count never exceeds the number that were open at one time. |
| `Descriptors.LastClosedFirst` | c_node/dtree.py:66-85 | An open right after a close gets the descriptor just closed, or 0 if none was left; with nothing recycled it gets the next number. |
| `Descriptors.LastInFirstOut` | c_node/dtree.py:66-85 | Two descriptors closed one after the other come back in the opposite order. |
| `Descriptors.FdPool.GenFd` | c_node/dtree.py:66-74 | The method takes the last recycled descriptor or the next new one and opens exactly that. |
| `Descriptors.FdPool.DesFd` | c_node/dtree.py:76-85 | Closing gives back exactly that descriptor, starts over when none is left, and refuses one that is not in use. |
| `Descriptors.UserPools.GenFd` | c_node/dtree.py:118-124 | A user's new descriptor is none of his live ones; other users' descriptors are not affected. |
| `Descriptors.UserPools.Close` | c_node/dtree.py:126-129 | Closing takes away one descriptor of one user, of the right kind, and his pool when it was the last. |

## Left out

- Receive.SbpRecv: for messages whose head and body together have fewer than 2^63 bytes. Negative results of `recv` and bytes after the body are not modelled.
- Receive.GetMissingLen: only for length fields of fewer than 64 characters whose line does not end before the value, because the C code copies them to a buffer of 64 bytes without a check. A value beyond 64 bits is read as the nearest one, as the GNU C library does; the C standard leaves it open.
- FileIO.CWrite: only for writes of fewer than 2^31 blocks (the exact condition of `Extents.CountExact`), through descriptors whose file has not been removed (for those see `Orphan`), and with block numbers left; the `length` field of descriptors is kept in the bytes but nothing is claimed about it.
- Orphan.CWriteOrphan: nothing is said of a write through a descriptor whose file has been removed when another file has got its head since, nor of what the client is answered; the buffer counts as large enough for the two sectors read.
- Transfer.SbpWrite: the client's memory must reach as far as the pieces do, which for a write that is not aligned may be beyond its bytes.
- Transfer.SbpRead: likewise the buffer must have room for the pieces.
- Execution.Run: runs without an `rmdir` of a directory from itself and without writes through descriptors of removed files, after which the table may represent no tree (`Delete.CRmdir`, `Orphan.RemoveThenWrite`).
- Execution.Execute: the same for one operation.
- HeaderParsers.DecodeHead: what the stores beyond the array of 32 elements destroy is not modelled.
- Disk.Disk.Extend: the image is two sequences, not one flat buffer that is reallocated; a failing malloc is not modelled anywhere.
- DataNode.DataNode.WriteBlock: the file list of a node is a sequence without a limit; the path buffers of two bytes, `deleteblock` and `getlist` are not modelled.
- `DTree.open` refuses a file with a block that no connected node has reported; `Transfer` starts from a descriptor that is open.
- `c_move`: it writes outside the string pool in one branch and leaves `flen` and `blocks` stale in the other, so it keeps none of the invariants.
- The time stamps of meta data are in the bytes, but no claim rests on their values, and on the `count` field only `Delete.CountDrifts` does.
- Open flags: the tests on them are always true in the code, and are modelled that way. The access modes that `dtree.py` checks before reads and writes are not modelled.
- Paths of 2^31 bytes or more, whose length does not fit an int.
- The round-robin counter is an unbounded number; the C int would overflow after 2^31 allocations.
- `c_stat`, `c_opendir`, `c_readdir`, `c_getblocks`, loading and saving the image, `dropUser`, login, sockets, threads, the client's slot table and the command-line tools are not modelled.

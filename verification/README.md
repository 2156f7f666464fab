# The DemandOS storage stack and its timer, modelled in Dafny

DemandOS reads and writes files through four layers: system calls on a descriptor table, ext2
inodes and directories, byte ranges patched into 512-byte sectors, and a virtio queue shared with
the block device. This project models each layer in the form its C code has and proves that the
whole stack does, on the real disk, what its calls mean for files. It also covers the memory the
rings live in, the entropy queue, and the one timer comparator that deferred work, sleeping and
demands share.

`dafny verify dfyconfig.toml` checks everything.

## How the pieces fit

| file | what it holds |
|---|---|
| `Words.dfy`, `Bytes.dfy`, `Arithmetic.dfy` | machine words, little-endian fields, splices, residues |
| `Virtio.dfy` | the ring, the driver's bookkeeping of it, and a conforming block device |
| `Blk.dfy` | sector requests on the ring; byte-range reads and writes built from them |
| `Ext2Disk.dfy` | ext2 structures as bytes; file bytes through an inode; sectors under a file |
| `Ext2.dfy` | inode fetch and store, file reads and writes, time stamps |
| `Directory.dfy`, `Paths.dfy` | the in-place directory scan; `strtok` and the two path resolvers |
| `Volume.dfy` | a well-formed volume and the map from inode numbers to files a disk stands for |
| `Faults.dfy` | failing devices and missed descriptors at the level of files; I/O cost |
| `Tree.dfy` | directories as files: what a directory lists and a path names, read off file bytes |
| `Descriptors.dfy` | calls on disk and table, what they mean, and whole runs of them |
| `Outage.dfy` | calls and runs on a device that may fail any request |
| `FileTable.dfy` | the descriptor table updated in place, over the full stack |
| `Memory.dfy` | bump allocation and the legacy ring layout |
| `Entropy.dfy` | the randomness loop |
| `Timer.dfy` | the comparator, its claimants, and all their interleavings |

The headline result is `FileTable.SystemCall`: on a volume in good order, every open, seek, read,
write and close, carried out through the handlers, ext2, the sector driver, the ring and the device,
leaves a disk that again records the same layout and stands for exactly the files, positions and
reply that the abstract call describes. `Descriptors.RunMeans` lifts this to every run, and
`FileTable.PerformCalls` carries any list of calls out on the stack itself; `FileTable.CallsOnAny`
does so on a device that may fail any request.

### Modelling choices

- A pointer handed to the device is a reference to the buffer, so the device writes into the very
  arrays the driver put on the ring. The device is a partner that, at any poll after publication,
  may or may not have served the request; it does so after finitely many polls. Before the avail
  index moves it has nothing to do. Fences are not modelled; each statement is one step.
- The device keeps a trace of the sector requests it finished. Contracts compare traces, which
  fixes the exact number, order and outcome of requests and names the request that failed.
- A device that is not `faulty` serves every request that lies on the disk. Any other device may
  fail any request, leaving arbitrary bytes in the buffer of a failed read and in the sector of a
  failed write.
- Packed C structures are their bytes. Products that C takes in 32 bits wrap here too.
- `memcpy` between overlapping ranges is a forward byte copy.
- Times are inputs: the clock of a stamp, and the timer value of each timer step.

### Where the code surprises

- The driver divides by the queue size less one and the device by the queue size.
  `Virtio.SlotsAgree` gives the indices where the two slots coincide. The block queue works at all
  indices because every request is rewound to one head, which then fills every slot
  (`BlkDriver.Valid`).
- `bg_from_bgno` does not report a failed read, so an inode position can be computed from an
  uninitialised buffer (`src/ext2.c:29-32`, `src/ext2.c:52-56`), and the fetch, the store or the
  stamp that follows reports success. The contracts of `Ext2` name the bytes the buffer held and
  say where the inode came from and went to; `Ext2.AimedExactly` says exactly when that is its
  place, and `Faults.StaleDescriptorExample` is a run in which it is not.
- A directory entry matches when its name is a prefix of the wanted one, and also when it is not in
  use (`src/ext2.c:193-221` never tests its inode number). `FindIsExact` gives the exact condition
  under which the entry in use of the wanted name is found, `ResolutionExact` the same for whole
  paths; `ShadowExample` is a directory with a prefix in the way, `UnusedExample` one with a deleted
  entry that kept its name.
- A lookup that accepts an unused entry asks for the group descriptor of inode 0, which lies past any
  ordinary disk. The fetch can then succeed with whatever lies where the stale buffer points; the
  contracts from `InodeFromDir` up to `OpenFd` take what the buffers held as an input (`helds`).
- The scan of a block reads entry lengths as they are (`src/ext2.c:193-221`). One of length 0 that is
  not accepted stops its progress: `ScanEnds` says when a scan ends, and `EndlessExample` is a block
  on which it does not.
- Directory scans visit thirteen map entries (`include/ext2.h:10`), and file access treats all
  fifteen as direct blocks. The model does the same.
- Opening a path that names nothing still opens a descriptor, and the position of a reused
  descriptor is not reset (`src/io.c:193-220`).
- A demand leaves no record but the comparator: an interrupt proceeds as if it had not been made,
  and `DemandForgotten` says exactly when its deadline is kept all the same.
- `ALIGN_UP` honours exactly the alignments that are powers of two (`AlignUpExact`).

## Model

| member | source | states |
|---|---|---|
| Virtio.ThreeEntriesChain | src/blk.c:29-38 | From every starting head, wrapping or not, the three entries of a request form one chain of three distinct descriptors in the order header, data, status, with flags 1, 1 or 3, and 2; it ends there, and nothing device-readable follows a device-writable part |
| Virtio.SlotsAgree | src/virtio.c:48-50 | The slot the driver fills and the slot a conforming device reads are the same exactly for indices whose residue modulo num * (num - 1) is below num - 1 |
| Virtio.Vring.AddToDescr | src/virtio.c:23-46 | Exactly one table entry changes, to the given buffer, length, flags and link; the bookkeeping moves to the successor of its own position |
| Virtio.Vring.PostDescr | src/virtio.c:48-55 | One avail slot receives the head and the published index advances by one modulo 2^16 |
| Virtio.Vring.WaitCompletion | src/virtio.c:57-88 | Returns only after the outstanding request has been served once, with its effect on disk, buffer and status, and with all ring indices equal again |
| Virtio.BlockDevice.Step | src/virtio.c:31-54 | Whenever the device takes a chain it finds exactly the request just built, as a read by type 0 and a write by type 1, and serves it once |
| Blk.BlkDriver.FillHeader | src/blk.c:17-18 | The header holds type 0 for a read and 1 for a write in its first four bytes and the sector in its last eight |
| Blk.BlkDriver.Transact | src/blk.c:10-89 | One posted chain, with type 0 for a read and 1 for a write, has the effect of one sector read or write and no other; afterwards nothing is outstanding, every avail slot holds the one head, the head is restored, and the published index is the number of requests so far modulo 2^16 |
| Blk.BlkDriver.ReadSectorSync | src/blk.c:50-89 | Status zero means the buffer is that sector of the unchanged disk; one request is added to the trace |
| Blk.BlkDriver.WriteSectorSync | src/blk.c:10-48 | Status zero means the disk has the buffer spliced in at that sector; otherwise no other sector differs |
| Blk.BlkDriver.ReadSync | src/blk.c:91-132 | The counted bytes and no others arrive in the output; a short count ends at a sector boundary with one failed request for the next sector; each sector is read once, in order |
| Blk.BlkDriver.WriteSync | src/blk.c:134-189 | A full count is one splice of the flat disk; a short count ends at a sector boundary, its bytes are in place, and only the sector that failed may differ otherwise; each sector is read and written once, in order |
| Ext2Disk.BlockPosExact | src/ext2.c:540-544 | The 32-bit product of block number and block size is the true position exactly for block numbers below 2^22 |
| Ext2Disk.InodeInOneSector | src/ext2.c:55-56 | No inode straddles two sectors |
| Ext2Disk.PlacesAlike | src/ext2.c:51-56 | Two descriptors place an inode alike exactly when the low 22 bits of their table block numbers agree |
| Ext2Disk.InodeIsRead | include/ext2.h:43-63 | From an inode packed field by field the three stamps and all fifteen entries of the block map are read back |
| Ext2Disk.PhysIsRead | src/ext2.c:471-475 | File byte i lies in the block that entry i / 1024 of the packed map names, at i mod 1024 |
| Ext2Disk.GroupIsRead | src/ext2.c:25-30 | Descriptor g is the g-th of the 32-byte descriptors that lie end to end behind byte 2048 |
| Ext2Disk.TableIsRead | include/ext2.h:32-41 | The table block is the third word of a packed descriptor |
| Ext2Disk.UnusedPastDisk | src/ext2.c:11-12 | Number 0 wraps around to group (2^32 - 1) / inodes per group, whose descriptor lies on the disk only if that reaches so far |
| Faults.StaleFetch | src/ext2.c:14-79 | On a sample volume every successful fetch placed by bytes with a zero table block delivers 256 bytes of another place, never the inode |
| Faults.StaleDescriptorExample | src/ext2.c:29-79 | A well-formed disk and a run on it: the descriptor read fails, the second read succeeds, and the fetch reports success with bytes that are not the inode |
| Ext2Disk.ScatterAppend | src/ext2.c:517-548 | Writing one byte string and then a second behind it is writing both at once, wherever the block and sector cuts fall |
| Ext2Disk.ScatterInBlock | src/ext2.c:523-544 | Inside one block a file write is a splice of the flat disk |
| Ext2Disk.FileSectorsInBlock | src/ext2.c:494-497 | A range inside one block occupies the same sectors counted from the file and from the disk |
| Ext2.BgFromBgno | src/ext2.c:14-33 | Reads one descriptor with one request; when it fails the buffer keeps what it held and success is still reported |
| Ext2.AimedExactly | src/ext2.c:51-56 | The computed position is that of the inode if and only if the bytes held for the descriptor agree with it in those 22 bits, whether it arrived or not |
| Ext2.InodeFromIno | src/ext2.c:69-79 | Exactly two sector reads, the second at the position the held descriptor bytes give; success delivers the 256 bytes there, which are the inode exactly where those bytes are aimed |
| Ext2.InodeToIno | src/ext2.c:59-67 | Success splices the inode in at the position the held descriptor bytes give, failure touches at most that sector; the position is right exactly when those bytes are aimed |
| Ext2.SetStampForIno | src/ext2.c:553-596 | Stands for the three setters: the 256 bytes of one position, with four of them replaced, are stored at another; with both descriptors aimed success changes exactly the four bytes of the chosen stamp and failure at most the sector of that inode |
| Ext2.ReadFromIno | src/ext2.c:461-504 | -1 means the inode was not read and nothing moved; a full count delivers the file bytes; a short count is what arrived, rounded down to the block in which the next sector failed; the requests are the two for the inode and one for each sector; the inode used is that of the file whenever the held descriptor bytes are aimed |
| Ext2.WriteToIno | src/ext2.c:506-551 | A full count is one scatter of the bytes through the block map; after a short count only the failed sector may differ from the scatter of what arrived; each sector is read and written once; the inode used is that of the file whenever the held descriptor bytes are aimed |
| Directories.StoredIsRead | include/ext2.h:65-71 | Wherever a stored entry lies in a block, the listing reads back its number, name and length |
| Directories.ListingOfStored | include/ext2.h:65-71 | Any entries stored one behind the other tile their block, and its listing is those entries in that order |
| Directories.StrncmpIsPrefix | src/ext2.c:214 | For names without a zero byte the comparison holds exactly when the entry name is a prefix of the wanted name |
| Directories.StrncmpWithZero | src/ext2.c:214 | A stored name with a zero byte is accepted exactly when what stands before that byte is the whole wanted name |
| Directories.FindIsExact | src/ext2.c:171-224 | The lookup finds the first entry in use of exactly that name, or its absence, if and only if no entry whose name is a proper prefix, and no unused entry of that name, stands before it |
| Directories.FindExactFirst | src/ext2.c:171-224 | The exact lookup is the first entry of that name whose inode number is not 0 |
| Directories.ListedExactly | src/ext2.c:175-178 | A directory lists exactly the entries of the blocks of its first thirteen map entries, up to the first one that is 0 |
| Directories.ShadowExample | src/ext2.c:214-219 | A two-entry directory in which looking up "ab" yields the inode of "a" |
| Directories.UnusedExample | src/ext2.c:193-221 | A deleted entry that kept its name hides the entry in use behind it, and alone counts as found |
| Directories.CopyEntry | src/ext2.c:195-199 | The buffer after the two forward copies, the second as long as the first one says, for any entry inside the block |
| Directories.CopiedFar | src/ext2.c:195-199 | The copies put exactly the entry at the front and leave the bytes behind it alone |
| Directories.StallsAtZero | src/ext2.c:193-221 | A turn of the scan stays where it was exactly when it is at an entry of length 0 that is not accepted |
| Directories.ScanEnds | src/ext2.c:193-221 | On every block: a scan none of whose turns stalls ends; a scan that stalls at the start or behind the first eight bytes never does |
| Directories.EndlessExample | src/ext2.c:193-221 | A block in which looking up "a" never ends |
| Directories.TiledTurn | src/ext2.c:193-221 | A turn at an entry of a well-formed block compares exactly that entry and leaves every byte not yet scanned as it was |
| Directories.TiledScan | src/ext2.c:193-221 | A scan of a well-formed block ends, with what the listing of the block as read gives first |
| Directories.ScanBlock | src/ext2.c:189-221 | The scan in its own buffer, on every block on which it ends inside, takes the turns of the abstract scan; on a well-formed block it finds what the pure listing would find first |
| Directories.InodeFromDir | src/ext2.c:171-224 | In every directory whose entries tile its blocks, delivers the number of the first accepted entry in block order and the inode fetched for it, or failure with both left as they were; an entry without a group descriptor gets the bytes at the stale position |
| Paths.ComponentsSplit | src/ext2.c:141-147 | The components of two texts joined by a slash are those of the first and then those of the second, so repeated, leading and trailing slashes count for nothing |
| Paths.SlashSeparates | src/ext2.c:143 | The byte 47 separates components, and no other byte does |
| Paths.ComponentsJoined | src/ext2.c:141-147 | Any list of plain non-empty names comes back from the path that joins them by slashes |
| Paths.Strtok | src/ext2.c:143-147 | Successive calls yield the components of the original text although separators are overwritten by zero bytes |
| Paths.InoFromPath | src/ext2.c:122-169 | Equals the fold of directory lookup from the root over the components, with what the descriptor buffers held where a descriptor lies past the disk; without components the caller's number stays |
| Paths.InodeFromPath | src/ext2.c:226-272 | Equals the same fold, delivering the inode |
| Paths.RootHeldsIrrelevant | src/ext2.c:122-169 | What the buffers held does not matter where every accepted entry has a group descriptor, and not to the number where all but the last have |
| Paths.ResolvedIsStored | src/ext2.c:158-165 | A success over at least one component ends at the inode stored under the reported number, if that has a group descriptor |
| Paths.ResolversAgree | src/ext2.c:122-272 | With the same buffers, or where buffers do not matter, both resolvers succeed on the same paths, and the inode stored under the number of the one is the inode of the other |
| Paths.ResolveEndsHops | src/ext2.c:149-166 | A resolution ends where the last of its steps ends |
| Paths.ResolutionExact | src/ext2.c:149-219 | The steps are those of a lookup of exact names in use if and only if no component is shadowed in the directory it is looked up in |
| Paths.ResolvableExample | src/ext2.c:122-219 | A disk with an unused entry of inode number 0 in its root directory, on which "/a" resolves |
| Trees.DirectoryMeans | src/ext2.c:171-224 | The scan of a directory lists exactly what the bytes of its file list |
| Trees.EntriesExactly | src/ext2.c:175-178 | The entries of a directory file are exactly those of its first thirteen blocks of 1024 bytes |
| Trees.PathMeans | src/ext2.c:122-169 | Both resolvers can follow a path through files that are well-formed directories, and the number reported is the one those bytes name, whatever the buffers hold |
| Trees.NamedExample | src/ext2.c:122-169 | A disk that records a volume on which "/a" names an inode by the bytes of the root directory |
| Volumes.PlacesApart | src/ext2.c:11-12 | Distinct inode numbers have disjoint places on a well-formed volume |
| Volumes.PlacesInOrder | src/ext2.c:35-57 | Inode 1 opens the first table; each next number takes the next 256 bytes, or the first entry of the next table when the last entry of one is used up |
| Volumes.VolumeExists | include/ext2.h:13-63 | Disks that record a well-formed volume with files exist |
| Volumes.PhysInjective | src/ext2.c:472-475 | Different bytes of one file or of two lie at different disk positions |
| Volumes.ScatterElsewhere | src/ext2.c:540-544 | A file write leaves every position it does not aim at unchanged |
| Volumes.ScatterHits | src/ext2.c:540-544 | A file write with distinct targets puts every byte where it aims it |
| Volumes.WriteSplices | src/ext2.c:506-551 | A file write splices the view of its own file; every other file, every inode and every group descriptor is unchanged |
| Volumes.StoreThenFetch | src/ext2.c:59-79 | Storing any 256 bytes as one inode and fetching another commute; fetching the same one delivers what was stored |
| Volumes.StampUpdates | src/ext2.c:553-596 | A stamp update changes one field of one file and no byte outside the four of that field |
| Volumes.ReadsSlice | src/ext2.c:461-504 | The bytes a read gathers through the block map are that slice of the file's view |
| Faults.ShortWriteSound | src/ext2.c:540-547 | After a short write the counted bytes are in place, every other file is untouched, and the written file differs from the splice of what arrived in one sector at most, in the block where the count stops |
| Faults.WriteOutcome | src/ext2.c:506-551 | On any device, a write whose inode came from the right place leaves every other file alone and its own with the counted bytes in place, at most one sector of it damaged |
| Faults.ReadOutcome | src/ext2.c:461-504 | On any device, a read whose inode came from the right place delivers exactly the bytes of the file that arrived, at least those it counts |
| Faults.StampOutcome | src/ext2.c:553-596 | On any device, an aimed stamp sets the field of that file or reports failure with at most the sector of its inode changed |
| Faults.SpanCount | src/blk.c:94-103 | A transfer touches ceil((offset + len) / 512) - floor(offset / 512) sectors |
| Faults.SectorsDistinct | src/ext2.c:471-501 | No sector occurs twice among the sectors of a file transfer |
| FileTables.FileTable.NextFd | src/io.c:22-29 | The lowest closed descriptor, or -1 when all are open |
| FileTables.FileTable.DiskSeekHandler | src/io.c:118-140 | The offset, or position plus offset, modulo 2^64 and its 32-bit return value; -1 and no change for a closed descriptor or any other whence |
| FileTables.FileTable.DiskWriteHandler | src/io.c:49-76 | On a device that does not fail, the write at an unmoved position followed by the modification stamp, or -1; on any device, for every volume the disk records, what `WriteOutcome` and `StampOutcome` say, unless a request for the group descriptor failed |
| FileTables.FileTable.DiskReadHandler | src/io.c:78-116 | On a device that does not fail, the read at an unmoved position followed by the access stamp; on any device, for every volume the disk records, what `ReadOutcome` and `StampOutcome` say, unless a request for the group descriptor failed; size zero does nothing at all |
| FileTables.FileTable.CloseFd | src/io.c:167-179 | An open slot is closed and loses its handlers, and keeps position and inode; otherwise -1 and no change |
| FileTables.FileTable.OpenFd | src/io.c:181-221 | Takes the lowest closed slot, keeps its old position and stores the number the path resolves to, also when nothing was found; in the path nothing but slashes changes |
| FileTables.FileTable.SystemCall | src/strap_handler.c:135-193 | Every call on a volume in good order does to disk, table and buffer, through all layers, what the call means for the files |
| FileTables.FileTable.PerformCalls | src/strap_handler.c:135-193 | Any list of calls carried out one after the other through all layers yields the replies, the table and the files of the abstract run |
| FileTables.FileTable.CallsOnAny | src/strap_handler.c:151-193 | On any device, a list of calls with no failed request for a group descriptor and no failed stamp is suffered call by call as `Suffered` says, and the bytes of every file it does not write to stay as they were |
| Outages.UntouchedOnAnyDevice | src/io.c:49-116 | Over every run that the abstract relation allows, lengths are kept and the bytes of a file that no call writes to stay as they were |
| Outages.SufferedKeeps | src/io.c:49-116 | One call on any device moves the table as without failures, keeps every length and touches the bytes of no file it does not write to |
| Descriptors.ReadMeans | src/io.c:96-115 | A read returns the slice of the file, sets its access time and changes nothing else |
| Descriptors.WriteMeans | src/io.c:60-75 | A write splices its own file, sets its modification time and changes nothing else |
| Descriptors.OpenMeans | src/io.c:181-221 | A path resolves on the disk to the number it names among the files |
| Descriptors.StepMeans | src/io.c:49-221 | One call on disk and table agrees with its meaning on files and positions, and the layout is kept |
| Descriptors.RunMeans | src/io.c:49-221 | Every run of calls over any descriptors yields the replies and the final files of the abstract run |
| Descriptors.BytesUntouched | src/io.c:49-221 | A run none of whose calls writes to a file, through whatever descriptor names it by then, leaves its bytes alone |
| Descriptors.SeekMoves | src/io.c:118-140 | A seek moves one position to the offset or on by it and nothing else, replies it where it fits, and is refused for other kinds |
| Descriptors.SeeksAdd | src/io.c:126-136 | Going to a and on by b is going to a + b, also where that wraps around |
| Descriptors.CloseEnds | src/io.c:167-179 | After a close the slot is closed and without handlers, all else is kept, and every call on it is refused with -1 and without effect |
| Descriptors.ClosedIsReused | src/io.c:22-29 | The slot just closed is the next one opened if every lower one is open, at its old position |
| Descriptors.SecondsExact | src/system.c:63-78 | A stamp s of a clock below 2^32 seconds satisfies s * 10^9 <= clock < (s + 1) * 10^9 |
| Descriptors.ToInt32Exact | src/io.c:118-140 | The returned number is the signed 32-bit number of the same residue modulo 2^32 |
| Descriptors.WrittenIsReadBack | src/io.c:49-140 | Seek, write, seek back and read returns what was written |
| Descriptors.OpenedWrittenReadBack | src/io.c:49-221 | Open a path, seek, write, seek back and read: the lowest closed descriptor is given and what was written comes back |
| Memory.AndNotPow2 | include/memory.h:8-9 | Masking with one less than a power of two rounds down to its multiple |
| Memory.AlignUpPow2 | include/memory.h:8-9 | For a power of two, aligning up gives the least multiple not below |
| Memory.AlignUpShift | src/virtio.c:130-133 | Aligning past an aligned base is aligning the distance from it |
| Memory.AlignUpExact | include/memory.h:8-9 | Every position is brought to a multiple of the alignment if and only if the alignment is a power of two |
| Memory.ForeverStorage.ForeverAllocAligned | src/memory.c:166-184 | The block lies behind every earlier one and inside the storage; nothing is handed out exactly when it would not fit |
| Memory.VringInit | src/virtio.c:102-142 | The areas sit at the byte offsets of section 2.6.2 of VIRTIO 1.1 for descriptors of 16 bytes, an avail ring of 6 + 2 * qsz and a used ring of 6 + 8 * qsz, aligned, each ending before the next, inside one page-aligned block of exactly that size that no earlier allocation overlaps; there is none exactly when that block does not fit |
| Memory.LayoutOf256 | src/virtio.c:102-133 | For 256 entries the rings lie 4096 and 8192 bytes into a block of 12288 |
| Entropy.NextHead | src/virtio.c:197-207 | The successor of the rewound position is the head of the next chunk |
| Entropy.EntropyDriver.PostChunk | src/virtio.c:200-207 | The posted head is the descriptor just filled, a chain of its own |
| Entropy.EntropyDriver.FillChunk | src/virtio.c:197-225 | One turn posts one chunk at the next head and puts its answer behind the bytes so far |
| Entropy.EntropyDriver.GetRandomness | src/virtio.c:184-230 | Chunk k is posted at (d0 + ceil(k / 2)) mod (num - 1); exactly the requested bytes are filled, in order, eight to a chunk, the last one cut; the index advances by the number of chunks modulo 2^16 |
| Timers.InterruptExact | src/strap_handler.c:33-84 | After an interrupt the comparator is the least remaining deadline or unset, due work has run, a due sleeper is told to wake, and nothing else changed |
| Timers.SafeNext | src/strap_handler.c:33-84 | Every step keeps: no pending deadline before the comparator, work at most once and after its deadline, each item pending, run or dropped and never two of these, no early wake-up |
| Timers.RunSafe | src/os.c:12-40 | The same over every legal run of arming, sleeping, waking, demands and interrupts |
| Timers.RunFromBootSafe | src/system.c:9-10 | So every legal run from the initial state is safe |
| Timers.FirstDueTickRuns | src/strap_handler.c:49-61 | Pending work is run by the first interrupt after its deadline unless it is replaced first |
| Timers.DemandForgotten | src/strap_handler.c:228-231 | An interrupt acts as if a demand had not been made, so one that comes in time keeps the demand exactly when a deadline of deferred work or of the sleeper still lies ahead and is no later |
| Timers.DemandKept | src/strap_handler.c:228-231 | In every run the comparator stays at or before a demand's timeout until the first interrupt, and over that interrupt exactly under this condition |
| Timers.ComparatorExact | src/system.c:13-40 | A deadline makes the comparator the smaller of it and the old value, and all bits set clears it |
| Timers.LeastAsked | src/os.c:12-19 | Between interrupts the comparator is exactly the least of its old value and all deadlines asked for since |
| Timers.DemandForgottenExample | src/strap_handler.c:228-231 | A run after which nothing will interrupt at a demand's deadline |
| Timers.Kernel.SetStimecmp | src/system.c:13-40 | Register and shadow move together, never past an earlier deadline |
| Timers.Kernel.SetDeferred | src/os.c:12-19 | The single slot is replaced and the comparator armed |
| Timers.Kernel.DoTimerDeferreds | src/os.c:21-40 | Work that is due runs once and the slot is cleared |
| Timers.Kernel.TimerInterruptHandler | src/strap_handler.c:33-84 | The in-place handler has the effect of one interrupt step |
| Timers.Kernel.NanosleepS | src/strap_handler.c:263-300 | The kernel ends in the state of a legal run of one sleep, interrupts and one wake-up, so every safety property carries over; the sleeper goes on only strictly after its deadline, and no interrupt arrives before the register is due |

## Left out

- Directories.InodeFromDir: asks for a device that does not fail and for blocks whose entries tile them; on other blocks the scan may leave its buffer or not end.
- Paths.InoFromPath: the same, for every directory that the way can reach; a component that is no directory is scanned as if it were one.
- Paths.InodeFromPath: as `Paths.InoFromPath`.
- FileTables.FileTable.SystemCall: ranges lie inside the file, paths lead through well-formed directories, and the device does not fail; for devices that may, see `CallsOnAny`.
- FileTables.FileTable.PerformCalls: as `FileTables.FileTable.SystemCall`.
- FileTables.FileTable.CallsOnAny: a list that opens nothing, because a directory scan of an unread buffer need not end; after a failed stamp the sector of an inode may hold anything, and nothing more is claimed.
- Directories.ScanEnds: a stall between the first and the eighth byte, reached only over an entry shorter than its own fixed part, is not decided.
- FileTables.FileTable.DiskWriteHandler: when a request for a group descriptor failed, the contract tells nothing about files, because the position then depends on what the buffer held; `Ext2` still says which bytes moved.
- FileTables.FileTable.DiskReadHandler: as `FileTables.FileTable.DiskWriteHandler`.
- Ext2.ReadFromIno: requires the range to lie under the fifteen entries of the block map, beyond which the code reads past the inode.
- Ext2.WriteToIno: as `Ext2.ReadFromIno`.
- Memory.ForeverStorage.ForeverAllocAligned: addresses do not wrap around at 2^64.
- Memory.VringInit: stops at a failed allocation, which the code goes on to use as an address.
- Entropy.EntropyDriver.GetRandomness: the device is taken to answer each chunk; whether it looks at the slot just filled is not claimed, because heads move on that queue and the two moduli differ.
- Timers.Kernel.DoTimerDeferreds: callbacks that arm timers are left out; the code clears the slot after the callback, and with it what the callback armed.
- Timers.Kernel.NanosleepS: interrupts arrive at the yields only; the floating-point duration is an integer input; the code powers the machine off when the sleep is over (`src/strap_handler.c:298`), where the model ends.
- Boot and trap assembly, control registers, fences and memory-mapped registers: hardware effects.
- PCI scanning and driver registration: drivers are initialised; the block queue is given its size.
- Reading and checking the superblock at mount: its one field in use is a given.
- The arena allocator: ten flagged slots in each of five sizes, on a heap that no modelled layer draws from.
- The stub system calls: they return constants or set one field of the process.
- Tracing output and the self-test: they observe the system and change nothing in it.
- Indirect blocks, sparse files, file growth, block allocation and seeks from the end: not implemented in the code.
- The console write path: it uses the ring in the same way, with one descriptor.
- Poweroff on a descriptor index out of range: such an index is never passed.

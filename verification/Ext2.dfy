/** Inodes and file bytes through the block driver. */
module Ext2 {
  import opened Words
  import opened Bytes
  import opened Virtio
  import opened Blk
  import opened Ext2Disk

  /** The request for the group descriptor of an inode. */
  function GroupIo(sb: Superblock, ino: u32, g: bool): Io
    requires sb.inodesPerGroup > 0
  {
    Io(ReadOp, SectorOf(GroupPos(GroupOf(sb, ino))), g)
  }

  /** What the descriptor buffer holds after that request: the descriptor when it arrived, and
      anything at all when it did not. */
  ghost predicate DescriptorHeld(disk: seq<byte>, sb: Superblock, ino: u32, g: bool, desc: seq<byte>)
    requires sb.inodesPerGroup > 0
  {
    && |desc| == GROUP
    && (g ==> GroupOnDisk(disk, sb, ino) && desc == GroupAt(disk, GroupOf(sb, ino)))
  }

  /** The held bytes agree with the descriptor on the disk in the 22 bits that place an inode. */
  ghost predicate Aimed(disk: seq<byte>, sb: Superblock, ino: u32, desc: seq<byte>)
    requires sb.inodesPerGroup > 0
  {
    && |desc| == GROUP && GroupOnDisk(disk, sb, ino)
    && TableOf(desc) % 0x40_0000 == TableOf(GroupAt(disk, GroupOf(sb, ino))) % 0x40_0000
  }

  /** The computed position is that of the inode exactly when the descriptor agrees in those bits,
      whether it arrived or not. */
  lemma AimedExactly(disk: seq<byte>, sb: Superblock, ino: u32, desc: seq<byte>)
    requires sb.inodesPerGroup > 0 && |desc| == GROUP && GroupOnDisk(disk, sb, ino)
    ensures PosInTable(desc, sb, ino) == InodePos(disk, sb, ino) <==> Aimed(disk, sb, ino, desc)
  {
    PlacesAlike(desc, GroupAt(disk, GroupOf(sb, ino)), sb, ino);
  }

  /** An inode was fetched: two sector reads, the second at the position that the held descriptor
      bytes give. Success delivers the 256 bytes there. */
  ghost predicate InodeFetched(disk: seq<byte>, sb: Superblock, ino: u32, g: bool, desc: seq<byte>,
                               ok: bool, inode: seq<byte>, trace: seq<Io>, trace': seq<Io>)
    requires sb.inodesPerGroup > 0
  {
    && DescriptorHeld(disk, sb, ino, g, desc)
    && var pos := PosInTable(desc, sb, ino);
    && trace' == trace + [GroupIo(sb, ino, g), Io(ReadOp, SectorOf(pos), ok)]
    && (ok ==> pos + INODE <= |disk| && inode == disk[pos..pos + INODE])
  }

  /** An inode was stored at the position that the held descriptor bytes give, or only the sector
      of that position may differ. */
  ghost predicate InodeStored(disk: seq<byte>, disk': seq<byte>, sb: Superblock, ino: u32,
                              g: bool, desc: seq<byte>, ok: bool, inode: seq<byte>,
                              trace: seq<Io>, trace': seq<Io>)
    requires sb.inodesPerGroup > 0
  {
    && DescriptorHeld(disk, sb, ino, g, desc)
    && var pos := PosInTable(desc, sb, ino);
    && var asked := trace + [GroupIo(sb, ino, g)];
    && (ok ==> PieceWritten(disk, disk', pos, inode, asked, trace'))
    && (!ok ==> PieceFailed(disk, disk', pos, asked, trace'))
  }

  lemma GroupPosFits(g: u32)
    ensures GroupPos(g) + GROUP < TWO64
  {
  }

  /** Reads a group descriptor. The outcome of the transfer is not reported: after a failed one
      `rbg` keeps whatever it held. */
  method BgFromBgno(driver: BlkDriver, rbg: array<byte>, bgno: u32) returns (ok: bool, ghost g: bool)
    requires driver.Valid() && rbg.Length == GROUP && rbg !in driver.Repr()
    modifies driver.Repr(), rbg
    ensures driver.Valid() && driver.device.disk == old(driver.device.disk)
    ensures driver.device.trace
         == old(driver.device.trace) + [Io(ReadOp, SectorOf(GroupPos(bgno)), g)]
    ensures g ==> GroupPos(bgno) + GROUP <= |driver.device.disk|
    ensures g ==> rbg[..] == GroupAt(driver.device.disk, bgno)
    ensures !g ==> rbg[..] == old(rbg[..])
    ensures !driver.device.faulty && GroupPos(bgno) + GROUP <= |driver.device.disk| ==> g
    ensures ok
  {
    hide ReadDone, ReadShort, GroupPos, SectorOffset, SectorOf;
    GroupInOneSector(bgno);
    GroupPosFits(bgno);
    var n := driver.ReadSync(rbg, 0, GroupPos(bgno), GROUP);
    RecordRead(driver.device.disk, GroupPos(bgno), n, old(rbg[..]), rbg[..],
               old(driver.device.trace), driver.device.trace);
    return true, n == GROUP;
  }

  /** Where an inode lies, computed from the descriptor bytes `desc` in the buffer. They are the
      descriptor when it arrived, and what the uninitialised buffer held when it did not. */
  method InoDiskOffset(driver: BlkDriver, sb: Superblock, ino: u32)
    returns (pos: u64, ghost g: bool, ghost desc: seq<byte>)
    requires driver.Valid() && sb.inodesPerGroup > 0
    modifies driver.Repr()
    ensures driver.Valid() && driver.device.disk == old(driver.device.disk)
    ensures driver.device.trace == old(driver.device.trace) + [GroupIo(sb, ino, g)]
    ensures DescriptorHeld(driver.device.disk, sb, ino, g, desc)
    ensures pos == PosInTable(desc, sb, ino) && SectorOffset(pos) + INODE <= SECTOR
    ensures g ==> Aimed(driver.device.disk, sb, ino, desc)
    ensures GroupOnDisk(driver.device.disk, sb, ino) ==>
      (pos == InodePos(driver.device.disk, sb, ino) <==> Aimed(driver.device.disk, sb, ino, desc))
    ensures !driver.device.faulty && GroupOnDisk(driver.device.disk, sb, ino) ==> g
  {
    hide GroupOf, IndexInGroup, BlockPos, TableOf;
    var bg := new byte[GROUP];
    var ok;
    ok, g := BgFromBgno(driver, bg, GroupOf(sb, ino));
    desc := bg[..];
    InodeInOneSector(desc, sb, ino);
    pos := PosInTable(bg[..], sb, ino);
    if GroupOnDisk(driver.device.disk, sb, ino) {
      AimedExactly(driver.device.disk, sb, ino, desc);
    }
  }

  /** Fetches an inode. Success is reported also when the descriptor did not arrive; the delivered
      bytes are then those at the position that the stale descriptor bytes give, which is the place
      of the inode exactly when those bytes are `Aimed`. */
  method InodeFromIno(driver: BlkDriver, sb: Superblock, rinode: array<byte>, ino: u32)
    returns (ok: bool, ghost g: bool, ghost desc: seq<byte>)
    requires driver.Valid() && sb.inodesPerGroup > 0
    requires rinode.Length == INODE && rinode !in driver.Repr()
    modifies driver.Repr(), rinode
    ensures driver.Valid() && driver.device.disk == old(driver.device.disk)
    ensures InodeFetched(driver.device.disk, sb, ino, g, desc, ok, rinode[..],
                         old(driver.device.trace), driver.device.trace)
    ensures !ok ==> rinode[..] == old(rinode[..])
    ensures g ==> Aimed(driver.device.disk, sb, ino, desc)
    ensures GroupOnDisk(driver.device.disk, sb, ino) ==>
      (PosInTable(desc, sb, ino) == InodePos(driver.device.disk, sb, ino)
       <==> Aimed(driver.device.disk, sb, ino, desc))
    ensures ok && Aimed(driver.device.disk, sb, ino, desc) ==>
      IsInode(driver.device.disk, sb, ino, rinode[..])
    ensures !driver.device.faulty && GroupOnDisk(driver.device.disk, sb, ino) ==>
      g && (ok <==> InodeAt(driver.device.disk, sb, ino).Some?)
    ensures !driver.device.faulty ==>
      Fetched(driver.device.disk, sb, ino, desc) == if ok then Some(rinode[..]) else None
  {
    hide GroupOf, InodePos, PosInTable, TableOf, ReadDone, ReadShort, SectorOffset, SectorOf;
    var pos;
    pos, g, desc := InoDiskOffset(driver, sb, ino);
    ghost var trace, disk := driver.device.trace, driver.device.disk;
    var n := driver.ReadSync(rinode, 0, pos, INODE);
    RecordRead(disk, pos, n, old(rinode[..]), rinode[..], trace, driver.device.trace);
    ok := n == INODE;
    assert driver.device.trace
        == old(driver.device.trace) + [GroupIo(sb, ino, g), Io(ReadOp, SectorOf(pos), ok)];
  }

  /** Stores an inode, at the position that the held descriptor bytes give. */
  method InodeToIno(driver: BlkDriver, sb: Superblock, rinode: array<byte>, ino: u32)
    returns (ok: bool, ghost g: bool, ghost desc: seq<byte>)
    requires driver.Valid() && sb.inodesPerGroup > 0
    requires rinode.Length == INODE && rinode !in driver.Repr()
    modifies driver.Repr()
    ensures driver.Valid() && |driver.device.disk| == |old(driver.device.disk)|
    ensures InodeStored(old(driver.device.disk), driver.device.disk, sb, ino, g, desc, ok, rinode[..],
                        old(driver.device.trace), driver.device.trace)
    ensures g ==> Aimed(old(driver.device.disk), sb, ino, desc)
    ensures GroupOnDisk(old(driver.device.disk), sb, ino) ==>
      (PosInTable(desc, sb, ino) == InodePos(old(driver.device.disk), sb, ino)
       <==> Aimed(old(driver.device.disk), sb, ino, desc))
    ensures !driver.device.faulty && GroupOnDisk(old(driver.device.disk), sb, ino) ==>
      g && (ok <==> InodeAt(old(driver.device.disk), sb, ino).Some?)
  {
    hide GroupOf, InodePos, PosInTable, TableOf, WriteDone, WriteShort, SectorOffset, SectorOf, PieceWritten,
         PieceFailed;
    var pos;
    pos, g, desc := InoDiskOffset(driver, sb, ino);
    ghost var trace, disk, data := driver.device.trace, driver.device.disk, rinode[..];
    var n := driver.WriteSync(rinode, 0, pos, INODE);
    assert rinode[0..INODE] == data;
    RecordWritten(disk, driver.device.disk, pos, n, data, trace, driver.device.trace);
    ok := n == INODE;
  }

  /** An inode with one of its time stamps replaced. */
  function WithField(inode: seq<byte>, f: Stamp, t: u32): seq<byte> {
    Splice(inode, StampOffset(f), ToLe(t, 4))
  }

  /** A time stamp update: a fetch at the position that `desc` gives and, unless it failed, a store
      of the changed inode at the position that `desc'` gives. Both are read off the same group
      descriptor, but either may have been missed. */
  ghost predicate StampSet(disk: seq<byte>, disk': seq<byte>, sb: Superblock, ino: u32,
                           f: Stamp, t: u32, g: bool, desc: seq<byte>, g': bool, desc': seq<byte>,
                           ok: bool, trace: seq<Io>, trace': seq<Io>)
    requires sb.inodesPerGroup > 0
  {
    && DescriptorHeld(disk, sb, ino, g, desc) && DescriptorHeld(disk, sb, ino, g', desc')
    && var pos := PosInTable(desc, sb, ino);
    && var fetch := [GroupIo(sb, ino, g), Io(ReadOp, SectorOf(pos), true)];
    (|| (&& !ok && disk' == disk && g' == g && desc' == desc
         && trace' == trace + [GroupIo(sb, ino, g), Io(ReadOp, SectorOf(pos), false)])
     || (&& pos + INODE <= |disk|
         && InodeStored(disk, disk', sb, ino, g', desc', ok, WithField(disk[pos..pos + INODE], f, t),
                        trace + fetch, trace')))
  }

  /** What that amounts to when both positions are those of the inode: success changes exactly the
      four bytes of the field, and failure at most the sector of the inode. */
  ghost predicate StampStored(disk: seq<byte>, disk': seq<byte>, sb: Superblock, ino: u32,
                              f: Stamp, t: u32, ok: bool)
    requires sb.inodesPerGroup > 0
  {
    && GroupOnDisk(disk, sb, ino)
    && (InodeAt(disk, sb, ino).None? ==> !ok && disk' == disk)
    && var pos := InodePos(disk, sb, ino);
    && (ok ==> disk' == Splice(disk, pos + StampOffset(f), ToLe(t, 4)))
    && (!ok ==> SameOutside(disk', disk, SectorOf(pos) * SECTOR, SectorOf(pos) * SECTOR + SECTOR))
  }

  lemma StampAimed(disk: seq<byte>, disk': seq<byte>, sb: Superblock, ino: u32, f: Stamp, t: u32,
                   g: bool, desc: seq<byte>, g': bool, desc': seq<byte>, ok: bool,
                   trace: seq<Io>, trace': seq<Io>)
    requires sb.inodesPerGroup > 0
    requires StampSet(disk, disk', sb, ino, f, t, g, desc, g', desc', ok, trace, trace')
    requires Aimed(disk, sb, ino, desc) && Aimed(disk, sb, ino, desc')
    ensures StampStored(disk, disk', sb, ino, f, t, ok)
  {
    hide InodePos, PosInTable, TableOf, Splice, ToLe, GroupIo;
    AimedExactly(disk, sb, ino, desc);
    AimedExactly(disk, sb, ino, desc');
    var pos := PosInTable(desc, sb, ino);
    if pos + INODE <= |disk| {
      SpliceWindow(disk, pos, INODE, StampOffset(f), ToLe(t, 4));
    }
  }

  /** A stamp update only adds to the trace, and both requests for the descriptor are found in it. */
  lemma StampTrace(disk: seq<byte>, disk': seq<byte>, sb: Superblock, ino: u32, f: Stamp, t: u32,
                   g: bool, desc: seq<byte>, g': bool, desc': seq<byte>, ok: bool,
                   trace: seq<Io>, trace': seq<Io>)
    requires sb.inodesPerGroup > 0
    requires StampSet(disk, disk', sb, ino, f, t, g, desc, g', desc', ok, trace, trace')
    ensures |trace| < |trace'| && trace'[..|trace|] == trace
    ensures trace'[|trace|] == GroupIo(sb, ino, g)
    ensures trace'[|trace|] == GroupIo(sb, ino, g')
      || (|trace| + 2 < |trace'| && trace'[|trace| + 2] == GroupIo(sb, ino, g'))
  {
    hide PosInTable, Splice, GroupAt, SameOutside;
  }

  /** Fetches an inode, changes one of its three time stamps and stores it again. When the held
      descriptor bytes are `Aimed` both times, and so whenever both descriptors arrived, success
      changes exactly the four bytes of that field; otherwise success tells where the 256 bytes
      came from and where they went. */
  method SetStampForIno(driver: BlkDriver, sb: Superblock, ino: u32, f: Stamp, t: u32)
    returns (ok: bool, ghost g: bool, ghost desc: seq<byte>, ghost g': bool, ghost desc': seq<byte>)
    requires driver.Valid() && sb.inodesPerGroup > 0
    modifies driver.Repr()
    ensures driver.Valid() && |driver.device.disk| == |old(driver.device.disk)|
    ensures StampSet(old(driver.device.disk), driver.device.disk, sb, ino, f, t, g, desc, g', desc', ok,
                     old(driver.device.trace), driver.device.trace)
    ensures g ==> Aimed(old(driver.device.disk), sb, ino, desc)
    ensures g' ==> Aimed(old(driver.device.disk), sb, ino, desc')
    ensures (Aimed(old(driver.device.disk), sb, ino, desc)
             && Aimed(old(driver.device.disk), sb, ino, desc')) ==>
      StampStored(old(driver.device.disk), driver.device.disk, sb, ino, f, t, ok)
    ensures !driver.device.faulty && GroupOnDisk(old(driver.device.disk), sb, ino) ==>
      g && g' && (ok <==> InodeAt(old(driver.device.disk), sb, ino).Some?)
  {
    hide GroupOf, InodePos, PosInTable, TableOf, GroupIo, Splice, ToLe, StampStored, Aimed;
    ghost var disk, trace := driver.device.disk, driver.device.trace;
    var inode := new byte[INODE];
    ok, g, desc := InodeFromIno(driver, sb, inode, ino);
    g', desc' := g, desc;
    if ok {
      Store(inode, StampOffset(f), ToLe(t, 4));
      ok, g', desc' := InodeToIno(driver, sb, inode, ino);
    }
    if Aimed(disk, sb, ino, desc) && Aimed(disk, sb, ino, desc') {
      StampAimed(disk, driver.device.disk, sb, ino, f, t, g, desc, g', desc', ok,
                 trace, driver.device.trace);
    }
  }

  /** A file read after `n` bytes. */
  ghost predicate FileReadSoFar(disk: seq<byte>, inode: seq<byte>, off: nat, len: nat, n: nat,
                                out: seq<byte>, out': seq<byte>, trace: seq<Io>, trace': seq<Io>)
    requires |inode| == INODE && off + len <= MAX_FILE
  {
    && n <= len && (n < len ==> BlockCutAt(off, n))
    && out' == Splice(out, 0, Gather(disk, inode, off, n))
    && trace' == trace + FileReads(inode, off, n)
  }

  /** The bytes and requests of a flat transfer of part of a chunk, added to those so far. */
  lemma ChunkRead(disk: seq<byte>, inode: seq<byte>, off: nat, len: nat, n: nat, r: nat,
                  out0: seq<byte>, out: seq<byte>, trace0: seq<Io>, trace: seq<Io>)
    requires |inode| == INODE && off + len <= MAX_FILE && n < len <= |out0|
    requires FileReadSoFar(disk, inode, off, len, n, out0, out, trace0, trace)
    requires r <= BlockLen(off + n, len - n) && (r > 0 ==> Phys(inode, off + n) + r <= |disk|)
    ensures Splice(out, n, Slice(disk, Phys(inode, off + n), r))
         == Splice(out0, 0, Gather(disk, inode, off, n + r))
    ensures trace + ReadIos(Phys(inode, off + n), r) == trace0 + FileReads(inode, off, n + r)
  {
    hide Phys, Splice, ReadsOf, Sectors, Gather, FileSectors;
    var p := Phys(inode, off + n);
    GatherChunk(disk, inode, off, n, len - n, r);
    assert |Slice(disk, p, r)| == r;
    SpliceAppend(out0, 0, Gather(disk, inode, off, n), Slice(disk, p, r));
    ChunkSectors(inode, off, n, len - n, r);
    ReadsAppend(FileSectors(inode, off, n), Sectors(p, r));
  }

  lemma FileReadStep(disk: seq<byte>, inode: seq<byte>, off: nat, len: nat, n: nat,
                     out0: seq<byte>, out: seq<byte>, out': seq<byte>,
                     trace0: seq<Io>, trace: seq<Io>, trace': seq<Io>)
    requires |inode| == INODE && off + len <= MAX_FILE && n < len <= |out0|
    requires FileReadSoFar(disk, inode, off, len, n, out0, out, trace0, trace)
    requires ReadDone(disk, Phys(inode, off + n), BlockLen(off + n, len - n), n, out, out', trace, trace')
    ensures FileReadSoFar(disk, inode, off, len, n + BlockLen(off + n, len - n),
                          out0, out', trace0, trace')
  {
    hide Phys, Splice, ReadIos, Gather, FileReads;
    var m := BlockLen(off + n, len - n);
    ChunkRead(disk, inode, off, len, n, m, out0, out, trace0, trace);
    if m < len - n {
      BlockCut(off, n, len - n);
    }
  }

  lemma FileReadFails(disk: seq<byte>, inode: seq<byte>, off: nat, len: nat, n: nat, r: nat,
                      out0: seq<byte>, out: seq<byte>, out': seq<byte>,
                      trace0: seq<Io>, trace: seq<Io>, trace': seq<Io>)
    requires |inode| == INODE && off + len <= MAX_FILE && n < len <= |out0|
    requires FileReadSoFar(disk, inode, off, len, n, out0, out, trace0, trace)
    requires r < BlockLen(off + n, len - n)
    requires ReadShort(disk, Phys(inode, off + n), r, n, out, out', trace, trace')
    ensures FileReadShort(disk, inode, off, len, n, n + r, out0, out', trace0, trace')
  {
    hide Phys, Splice, ReadIos, Gather, FileReads, FileSector;
    ChunkRead(disk, inode, off, len, n, r, out0, out, trace0, trace);
    FailingSector(inode, off, n, len - n, r);
  }

  /** One chunk of a file read, inside one block. */
  method ReadChunk(driver: BlkDriver, inode: array<byte>, buffer: array<byte>, off: nat, len: nat,
                   n: nat, ghost out0: seq<byte>, ghost trace0: seq<Io>)
    returns (ok: bool, red: nat)
    requires driver.Valid() && inode.Length == INODE && {inode, buffer} !! driver.Repr()
    requires inode != buffer && off + len <= MAX_FILE && n < len <= buffer.Length == |out0|
    requires FileReadSoFar(driver.device.disk, inode[..], off, len, n, out0, buffer[..],
                           trace0, driver.device.trace)
    modifies driver.Repr(), buffer
    ensures driver.Valid() && driver.device.disk == old(driver.device.disk)
    ensures if ok then 0 < red <= len - n else n + red < len
    ensures ok ==>
      FileReadSoFar(driver.device.disk, inode[..], off, len, n + red, out0, buffer[..],
                    trace0, driver.device.trace)
    ensures !ok ==>
      FileReadShort(driver.device.disk, inode[..], off, len, n, n + red, out0, buffer[..],
                    trace0, driver.device.trace)
    ensures !driver.device.faulty && FileOnDisk(driver.device.disk, inode[..], off, len) ==> ok
  {
    hide Phys, BlockLen, FileReadShort, FileReadSoFar, ReadDone, ReadShort;
    ghost var disk, out, trace := driver.device.disk, buffer[..], driver.device.trace;
    var want := BlockLen(off + n, len - n);
    var pos := Phys(inode[..], off + n);
    red := driver.ReadSync(buffer, n, pos, want);
    ok := red == want;
    ChunkOnDisk(disk, inode[..], off, len, n);
    if ok {
      FileReadStep(disk, inode[..], off, len, n, out0, out, buffer[..],
                   trace0, trace, driver.device.trace);
    } else {
      FileReadFails(disk, inode[..], off, len, n, red, out0, out, buffer[..],
                    trace0, trace, driver.device.trace);
    }
  }

  lemma FileReadStarts(disk: seq<byte>, inode: seq<byte>, off: nat, len: nat,
                       out: seq<byte>, trace: seq<Io>)
    requires |inode| == INODE && off + len <= MAX_FILE
    ensures FileReadSoFar(disk, inode, off, len, 0, out, out, trace, trace)
  {
    SpliceNothing(out, 0);
    assert FileReads(inode, off, 0) == [];
  }

  lemma FileReadEnds(disk: seq<byte>, inode: seq<byte>, off: nat, len: nat,
                     out: seq<byte>, out': seq<byte>, trace: seq<Io>, trace': seq<Io>)
    requires |inode| == INODE && off + len <= MAX_FILE
    requires FileReadSoFar(disk, inode, off, len, len, out, out', trace, trace')
    ensures FileReadDone(disk, inode, off, len, out, out', trace, trace')
  {
  }

  /** The chunk loop of a file read. `r` counts the bytes that arrived, `n` those reported. */
  method ReadChunks(driver: BlkDriver, inode: array<byte>, buffer: array<byte>, off: nat, len: nat)
    returns (n: nat, ghost r: nat)
    requires driver.Valid() && inode.Length == INODE && {inode, buffer} !! driver.Repr()
    requires inode != buffer && off + len <= MAX_FILE && len <= buffer.Length
    modifies driver.Repr(), buffer
    ensures driver.Valid() && driver.device.disk == old(driver.device.disk) && n <= len
    ensures n == len ==> r == len
    ensures n == len ==>
      FileReadDone(driver.device.disk, inode[..], off, len, old(buffer[..]), buffer[..],
                   old(driver.device.trace), driver.device.trace)
    ensures n < len ==>
      FileReadShort(driver.device.disk, inode[..], off, len, n, r, old(buffer[..]), buffer[..],
                    old(driver.device.trace), driver.device.trace)
    ensures !driver.device.faulty && FileOnDisk(driver.device.disk, inode[..], off, len) ==> n == len
  {
    hide FileReadSoFar, FileReadShort, FileReadDone, FileOnDisk;
    n, r := 0, 0;
    FileReadStarts(driver.device.disk, inode[..], off, len, buffer[..], driver.device.trace);
    while n < len
      invariant driver.Valid() && driver.device.disk == old(driver.device.disk) && n <= len
      invariant r == n
      invariant FileReadSoFar(driver.device.disk, inode[..], off, len, n, old(buffer[..]), buffer[..],
                              old(driver.device.trace), driver.device.trace)
    {
      var ok, red := ReadChunk(driver, inode, buffer, off, len, n,
                               old(buffer[..]), old(driver.device.trace));
      r := n + red;
      if !ok {
        return;
      }
      n := n + red;
    }
    FileReadEnds(driver.device.disk, inode[..], off, len, old(buffer[..]), buffer[..],
                 old(driver.device.trace), driver.device.trace);
  }

  /** The count of a transfer on a device that does not fail: -1 exactly when the inode does not lie
      on the disk, and full when every byte does. */
  ghost predicate Unfailing(disk: seq<byte>, sb: Superblock, ino: u32, off: nat, len: nat, n: int)
    requires sb.inodesPerGroup > 0 && GroupOnDisk(disk, sb, ino) && off + len <= MAX_FILE
  {
    var stored := InodeAt(disk, sb, ino);
    && (n != -1 <==> stored.Some?)
    && (stored.Some? && FileOnDisk(disk, stored.value, off, len) ==> n == len)
  }

  /** A file read once the inode was asked for: -1 when it could not be fetched and nothing moved, a
      full count with all the bytes, or a short count. */
  ghost predicate ReadResult(disk: seq<byte>, inode: seq<byte>, off: nat, len: nat, n: int, r: nat,
                             out: seq<byte>, out': seq<byte>, trace: seq<Io>, trace': seq<Io>)
    requires |inode| == INODE && off + len <= MAX_FILE
  {
    && -1 <= n <= len
    && (n == -1 ==> out' == out && trace' == trace)
    && (n == len ==> r == len && FileReadDone(disk, inode, off, len, out, out', trace, trace'))
    && (0 <= n < len ==> FileReadShort(disk, inode, off, len, n, r, out, out', trace, trace'))
  }

  /** Reads file bytes `[off, off + len)`. The count is -1 when the inode could not be read. */
  method ReadFromIno(driver: BlkDriver, sb: Superblock, ino: u32, buffer: array<byte>,
                     off: nat, len: nat)
    returns (n: int, ghost g: bool, ghost desc: seq<byte>, ghost inode: seq<byte>, ghost r: nat)
    requires driver.Valid() && sb.inodesPerGroup > 0 && buffer !in driver.Repr()
    requires off + len <= MAX_FILE && len <= buffer.Length
    modifies driver.Repr(), buffer
    ensures driver.Valid() && driver.device.disk == old(driver.device.disk)
    ensures |inode| == INODE && |driver.device.trace| >= |old(driver.device.trace)| + 2
    ensures var fetched := driver.device.trace[..|old(driver.device.trace)| + 2];
      && InodeFetched(driver.device.disk, sb, ino, g, desc, n != -1, inode,
                      old(driver.device.trace), fetched)
      && ReadResult(driver.device.disk, inode, off, len, n, r, old(buffer[..]), buffer[..],
                    fetched, driver.device.trace)
    ensures g ==> Aimed(driver.device.disk, sb, ino, desc)
    ensures n != -1 && Aimed(driver.device.disk, sb, ino, desc) ==>
      IsInode(driver.device.disk, sb, ino, inode)
    ensures !driver.device.faulty && GroupOnDisk(driver.device.disk, sb, ino) ==>
      g && Unfailing(driver.device.disk, sb, ino, off, len, n)
  {
    hide FileReadShort, FileReadDone, FileOnDisk, GroupOf, InodePos, PosInTable, TableOf, GroupIo;
    var node := new byte[INODE];
    var ok;
    ok, g, desc := InodeFromIno(driver, sb, node, ino);
    inode, r := node[..], 0;
    ghost var fetched := driver.device.trace;
    assert fetched[..|old(driver.device.trace)| + 2] == fetched;
    if !ok {
      return -1, g, desc, inode, 0;
    }
    n, r := ReadChunks(driver, node, buffer, off, len);
    TraceGrows(driver.device.disk, inode, off, len, n, r, old(buffer[..]), buffer[..],
               fetched, driver.device.trace);
  }

  /** A transfer only adds to the trace. */
  lemma TraceGrows(disk: seq<byte>, inode: seq<byte>, off: nat, len: nat, n: nat, r: nat,
                   out: seq<byte>, out': seq<byte>, trace: seq<Io>, trace': seq<Io>)
    requires |inode| == INODE && off + len <= MAX_FILE
    requires FileReadDone(disk, inode, off, len, out, out', trace, trace')
          || FileReadShort(disk, inode, off, len, n, r, out, out', trace, trace')
    ensures |trace'| >= |trace| && trace'[..|trace|] == trace
  {
  }

  /** A file write after the bytes `done`. */
  ghost predicate FileWrittenSoFar(disk: seq<byte>, disk': seq<byte>, inode: seq<byte>, off: nat,
                                   len: nat, done: seq<byte>, trace: seq<Io>, trace': seq<Io>)
    requires |inode| == INODE && off + len <= MAX_FILE
  {
    && |done| <= len && (|done| < len ==> BlockCutAt(off, |done|))
    && disk' == Scatter(disk, inode, off, done)
    && trace' == trace + FileWrites(inode, off, |done|)
  }

  lemma ChunkWritten(disk: seq<byte>, inode: seq<byte>, off: nat, len: nat, done: seq<byte>,
                     piece: seq<byte>, disk': seq<byte>, trace: seq<Io>, trace': seq<Io>)
    requires |inode| == INODE && off + len <= MAX_FILE && |done| < len
    requires FileWrittenSoFar(disk, disk', inode, off, len, done, trace, trace')
    requires |piece| <= BlockLen(off + |done|, len - |done|)
    requires piece != [] ==> Phys(inode, off + |done|) + |piece| <= |disk|
    ensures Splice(disk', Phys(inode, off + |done|), piece)
         == Scatter(disk, inode, off, done + piece)
    ensures trace' + WriteIos(Phys(inode, off + |done|), |piece|)
         == trace + FileWrites(inode, off, |done| + |piece|)
  {
    hide Phys, Splice, Scatter, WriteIos, FileWrites, BlockCutAt, BlockLen;
    ScatterChunk(disk, inode, off, done, len - |done|, piece);
    ChunkWrites(inode, off, |done|, len - |done|, |piece|);
  }

  lemma ChunkWrites(inode: seq<byte>, off: nat, n: nat, left: nat, r: nat)
    requires |inode| == INODE && off + n + left <= MAX_FILE && left > 0
    requires BlockCutAt(off, n) && r <= BlockLen(off + n, left)
    ensures FileWrites(inode, off, n) + WriteIos(Phys(inode, off + n), r)
         == FileWrites(inode, off, n + r)
  {
    hide Phys, Sectors, FileSectors, WritesOf;
    ChunkSectors(inode, off, n, left, r);
    WritesAppend(FileSectors(inode, off, n), Sectors(Phys(inode, off + n), r));
  }

  lemma FileWriteStep(disk: seq<byte>, inode: seq<byte>, off: nat, len: nat, done: seq<byte>,
                      piece: seq<byte>, disk': seq<byte>, disk'': seq<byte>,
                      trace: seq<Io>, trace': seq<Io>, trace'': seq<Io>)
    requires |inode| == INODE && off + len <= MAX_FILE && |done| < len
    requires FileWrittenSoFar(disk, disk', inode, off, len, done, trace, trace')
    requires |piece| == BlockLen(off + |done|, len - |done|)
    requires WriteDone(disk', disk'', Phys(inode, off + |done|), piece, trace', trace'')
    ensures FileWrittenSoFar(disk, disk'', inode, off, len, done + piece, trace, trace'')
  {
    hide Phys, Splice, Scatter, WriteIos, FileWrites;
    ChunkWritten(disk, inode, off, len, done, piece, disk', trace, trace');
    if |piece| < len - |done| {
      BlockCut(off, |done|, len - |done|);
    }
  }

  lemma FileWriteFails(disk: seq<byte>, inode: seq<byte>, off: nat, data: seq<byte>, n: nat, r: nat,
                       disk': seq<byte>, disk'': seq<byte>,
                       trace: seq<Io>, trace': seq<Io>, trace'': seq<Io>)
    requires |inode| == INODE && off + |data| <= MAX_FILE && n < |data|
    requires FileWrittenSoFar(disk, disk', inode, off, |data|, data[..n], trace, trace')
    requires r < BlockLen(off + n, |data| - n)
    requires WriteShort(disk', disk'', Phys(inode, off + n), data[n..n + r], trace', trace'')
    requires |disk'| == |disk|
    ensures FileWriteShort(disk, disk'', inode, off, data, n, n + r, trace, trace'')
  {
    hide Phys, Splice, Scatter, WriteIos, FileWrites, FileSector, SameOutside;
    ChunkWritten(disk, inode, off, |data|, data[..n], data[n..n + r], disk', trace, trace');
    SliceStart(data, n, n + r, r);
    FailingSector(inode, off, n, |data| - n, r);
  }

  /** One chunk of a file write, inside one block. */
  method WriteChunk(driver: BlkDriver, inode: array<byte>, buffer: array<byte>, off: nat, len: nat,
                    n: nat, ghost data: seq<byte>, ghost disk0: seq<byte>, ghost trace0: seq<Io>)
    returns (ok: bool, wrote: nat)
    requires driver.Valid() && inode.Length == INODE && {inode, buffer} !! driver.Repr()
    requires off + len <= MAX_FILE && n < len <= buffer.Length
    requires data == buffer[..len] && |driver.device.disk| == |disk0|
    requires FileWrittenSoFar(disk0, driver.device.disk, inode[..], off, len, data[..n],
                              trace0, driver.device.trace)
    modifies driver.Repr()
    ensures driver.Valid() && |driver.device.disk| == |disk0|
    ensures if ok then 0 < wrote <= len - n else n + wrote < len
    ensures ok ==>
      FileWrittenSoFar(disk0, driver.device.disk, inode[..], off, len, data[..n + wrote],
                       trace0, driver.device.trace)
    ensures !ok ==>
      FileWriteShort(disk0, driver.device.disk, inode[..], off, data, n, n + wrote,
                     trace0, driver.device.trace)
    ensures !driver.device.faulty && FileOnDisk(disk0, inode[..], off, len) ==> ok
  {
    hide Phys, BlockLen, FileWriteShort, FileWrittenSoFar, WriteDone, WriteShort;
    ghost var disk, trace := driver.device.disk, driver.device.trace;
    var want := BlockLen(off + n, len - n);
    var pos := Phys(inode[..], off + n);
    wrote := driver.WriteSync(buffer, n, pos, want);
    ok := wrote == want;
    SameLengthOnDisk(disk0, disk, inode[..], off, len);
    ChunkOnDisk(disk, inode[..], off, len, n);
    PrefixSlice(buffer[..], len, n, n + want);
    SliceStart(data, n, n + want, wrote);
    assert buffer[..][..len] == data && buffer[..][n..n + want] == buffer[n..n + want];
    if ok {
      FileWriteStep(disk0, inode[..], off, len, data[..n], data[n..n + want], disk,
                    driver.device.disk, trace0, trace, driver.device.trace);
    } else {
      FileWriteFails(disk0, inode[..], off, data, n, wrote, disk, driver.device.disk,
                     trace0, trace, driver.device.trace);
    }
  }

  lemma FileWriteStarts(disk: seq<byte>, inode: seq<byte>, off: nat, len: nat, trace: seq<Io>)
    requires |inode| == INODE && off + len <= MAX_FILE
    ensures FileWrittenSoFar(disk, disk, inode, off, len, [], trace, trace)
  {
    assert FileWrites(inode, off, 0) == [];
  }

  lemma FileWriteEnds(disk: seq<byte>, disk': seq<byte>, inode: seq<byte>, off: nat,
                      data: seq<byte>, trace: seq<Io>, trace': seq<Io>)
    requires |inode| == INODE && off + |data| <= MAX_FILE
    requires FileWrittenSoFar(disk, disk', inode, off, |data|, data, trace, trace')
    ensures FileWriteDone(disk, disk', inode, off, data, trace, trace')
  {
  }

  /** The chunk loop of a file write. `r` counts the bytes in place, `n` those reported. */
  method WriteChunks(driver: BlkDriver, inode: array<byte>, buffer: array<byte>, off: nat, len: nat)
    returns (n: nat, ghost r: nat)
    requires driver.Valid() && inode.Length == INODE && {inode, buffer} !! driver.Repr()
    requires off + len <= MAX_FILE && len <= buffer.Length
    modifies driver.Repr()
    ensures driver.Valid() && |driver.device.disk| == |old(driver.device.disk)| && n <= len
    ensures n == len ==> r == len
    ensures n == len ==>
      FileWriteDone(old(driver.device.disk), driver.device.disk, inode[..], off, buffer[..len],
                    old(driver.device.trace), driver.device.trace)
    ensures n < len ==>
      FileWriteShort(old(driver.device.disk), driver.device.disk, inode[..], off, buffer[..len], n, r,
                     old(driver.device.trace), driver.device.trace)
    ensures !driver.device.faulty && FileOnDisk(driver.device.disk, inode[..], off, len) ==> n == len
  {
    hide FileWrittenSoFar, FileWriteShort, FileWriteDone, FileOnDisk;
    ghost var data, disk0 := buffer[..len], driver.device.disk;
    n, r := 0, 0;
    FileWriteStarts(disk0, inode[..], off, len, driver.device.trace);
    while n < len
      invariant driver.Valid() && |driver.device.disk| == |disk0| && r == n <= len
      invariant buffer[..len] == data
      invariant FileWrittenSoFar(disk0, driver.device.disk, inode[..], off, len, data[..n],
                                 old(driver.device.trace), driver.device.trace)
    {
      SameLengthOnDisk(disk0, driver.device.disk, inode[..], off, len);
      var ok, wrote := WriteChunk(driver, inode, buffer, off, len, n, data,
                                  disk0, old(driver.device.trace));
      SameLengthOnDisk(disk0, driver.device.disk, inode[..], off, len);
      r := n + wrote;
      if !ok {
        return;
      }
      n := n + wrote;
    }
    assert n == len;
    assert data[..len] == data;
    FileWriteEnds(disk0, driver.device.disk, inode[..], off, data,
                  old(driver.device.trace), driver.device.trace);
  }

  lemma SameLengthOnDisk(disk: seq<byte>, disk': seq<byte>, inode: seq<byte>, off: nat, len: nat)
    requires |inode| == INODE && off + len <= MAX_FILE && |disk| == |disk'|
    ensures FileOnDisk(disk, inode, off, len) <==> FileOnDisk(disk', inode, off, len)
  {
  }

  lemma WriteTraceGrows(disk: seq<byte>, disk': seq<byte>, inode: seq<byte>, off: nat,
                        data: seq<byte>, n: nat, r: nat, trace: seq<Io>, trace': seq<Io>)
    requires |inode| == INODE && off + |data| <= MAX_FILE
    requires FileWriteDone(disk, disk', inode, off, data, trace, trace')
          || FileWriteShort(disk, disk', inode, off, data, n, r, trace, trace')
    ensures |trace'| >= |trace| && trace'[..|trace|] == trace
  {
  }

  /** A file write once the inode was asked for. */
  ghost predicate WriteResult(disk: seq<byte>, disk': seq<byte>, inode: seq<byte>, off: nat,
                              data: seq<byte>, n: int, r: nat, trace: seq<Io>, trace': seq<Io>)
    requires |inode| == INODE && off + |data| <= MAX_FILE
  {
    && -1 <= n <= |data|
    && (n == -1 ==> disk' == disk && trace' == trace)
    && (n == |data| ==> r == n && FileWriteDone(disk, disk', inode, off, data, trace, trace'))
    && (0 <= n < |data| ==> FileWriteShort(disk, disk', inode, off, data, n, r, trace, trace'))
  }

  /** Writes file bytes `[off, off + len)`. The count is -1 when the inode could not be read. */
  method WriteToIno(driver: BlkDriver, sb: Superblock, ino: u32, buffer: array<byte>,
                    off: nat, len: nat)
    returns (n: int, ghost g: bool, ghost desc: seq<byte>, ghost inode: seq<byte>, ghost r: nat)
    requires driver.Valid() && sb.inodesPerGroup > 0 && buffer !in driver.Repr()
    requires off + len <= MAX_FILE && len <= buffer.Length
    modifies driver.Repr()
    ensures driver.Valid() && |driver.device.disk| == |old(driver.device.disk)|
    ensures |inode| == INODE && |driver.device.trace| >= |old(driver.device.trace)| + 2
    ensures var fetched := driver.device.trace[..|old(driver.device.trace)| + 2];
      && InodeFetched(old(driver.device.disk), sb, ino, g, desc, n != -1, inode,
                      old(driver.device.trace), fetched)
      && WriteResult(old(driver.device.disk), driver.device.disk, inode, off, buffer[..len], n, r,
                     fetched, driver.device.trace)
    ensures g ==> Aimed(old(driver.device.disk), sb, ino, desc)
    ensures n != -1 && Aimed(old(driver.device.disk), sb, ino, desc) ==>
      IsInode(old(driver.device.disk), sb, ino, inode)
    ensures !driver.device.faulty && GroupOnDisk(old(driver.device.disk), sb, ino) ==>
      g && Unfailing(old(driver.device.disk), sb, ino, off, len, n)
  {
    hide FileWriteShort, FileWriteDone, FileOnDisk, GroupOf, InodePos, PosInTable, TableOf, GroupIo;
    ghost var disk := driver.device.disk;
    var node := new byte[INODE];
    var ok;
    ok, g, desc := InodeFromIno(driver, sb, node, ino);
    inode, r := node[..], 0;
    ghost var fetched := driver.device.trace;
    assert fetched[..|old(driver.device.trace)| + 2] == fetched;
    if !ok {
      return -1, g, desc, inode, 0;
    }
    n, r := WriteChunks(driver, node, buffer, off, len);
    SameLengthOnDisk(disk, driver.device.disk, inode, off, len);
    WriteTraceGrows(disk, driver.device.disk, inode, off, buffer[..len], n, r,
                    fetched, driver.device.trace);
  }
}

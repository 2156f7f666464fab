/** What a failing device and the chunk boundaries leave visible at the level of files. */
module Faults {
  import opened Words
  import opened Bytes
  import opened Virtio
  import opened Blk
  import opened Ext2Disk
  import opened Ext2
  import opened Volumes

  /** A sector under a file holds bytes of that file only. */
  lemma SectorBytes(v: Volume, disk: seq<byte>, ino: u32, fs: nat, p: nat)
    requires Holds(v, disk) && ino in v.files && fs * SECTOR < FileLen(v, ino)
    requires var s := FileSector(InodeBytes(v, disk, ino), fs) * SECTOR; s <= p < s + SECTOR
    ensures var i := fs * SECTOR + (p - FileSector(InodeBytes(v, disk, ino), fs) * SECTOR);
      && fs * SECTOR <= i < fs * SECTOR + SECTOR <= FileLen(v, ino)
      && Phys(InodeBytes(v, disk, ino), i) == p
  {
    hide BlockPos, Pointer, InodeBytes;
    var inode := InodeBytes(v, disk, ino);
    var f, h := fs / 2, fs % 2;
    var q := BlockPos(Pointer(inode, f)) / BLOCK;
    var x := p - FileSector(inode, fs) * SECTOR;
    var i := fs * SECTOR + x;
    assert FileSector(inode, fs) == 2 * q + h;
    assert i == BLOCK * f + (h * SECTOR + x);
    assert i / BLOCK == f && i % BLOCK == h * SECTOR + x;
  }

  /** A disk that differs in one sector under a file differs in that file's bytes only. */
  lemma SpoiledSector(v: Volume, disk: seq<byte>, disk': seq<byte>, ino: u32, fs: nat)
    requires Holds(v, disk) && ino in v.files && fs * SECTOR < FileLen(v, ino)
    requires var s := FileSector(InodeBytes(v, disk, ino), fs) * SECTOR;
      SameOutside(disk', disk, s, s + SECTOR)
    ensures fs * SECTOR + SECTOR <= FileLen(v, ino)
    ensures OnlyFileBytes(v, disk, disk', ino, fs * SECTOR, SECTOR)
  {
    hide Phys, FileSector, InodeBytes;
    var s := FileSector(InodeBytes(v, disk, ino), fs) * SECTOR;
    SectorBytes(v, disk, ino, fs, s);
    forall p | 0 <= p < |disk| && disk'[p] != disk[p]
      ensures exists i :: fs * SECTOR <= i < fs * SECTOR + SECTOR && Phys(InodeBytes(v, disk, ino), i) == p
    {
      SectorBytes(v, disk, ino, fs, p);
    }
  }

  /** A short write at the level of files: the counted bytes are in place and every other file is
      untouched. In the file itself only the bytes of the one sector that failed may differ from
      what the arrived bytes make of it, and that sector lies in the block where the count stops. */
  lemma ShortWriteSound(v: Volume, disk: seq<byte>, disk': seq<byte>, files: map<u32, File>,
                        ino: u32, inode: seq<byte>, off: nat, data: seq<byte>, n: nat, r: nat,
                        trace: seq<Io>, trace': seq<Io>)
    returns (bytes': seq<byte>)
    requires Files(v, disk) == Some(files) && ino in files && off + |data| <= |files[ino].bytes|
    requires |inode| == INODE && off + |data| <= MAX_FILE && inode == InodeBytes(v, disk, ino)
    requires FileWriteShort(disk, disk', inode, off, data, n, r, trace, trace')
    ensures Files(v, disk') == Some(files[ino := files[ino].(bytes := bytes')])
    ensures n <= r < |data| && (off + n) / BLOCK == (off + r) / BLOCK
    ensures var bad := (off + r) / SECTOR * SECTOR;
      SameOutside(bytes', Splice(files[ino].bytes, off, data[..r]), bad, bad + SECTOR)
    ensures bytes'[off..off + n] == data[..n]
  {
    hide Files, Scatter, Splice, InodeBytes, FileSector, FileWriteShort, SameOutside, Holds;
    ShortWriteSpoils(v, disk, disk', inode, off, data, n, r, trace, trace');
    var f := files[ino];
    var f1 := f.(bytes := Splice(f.bytes, off, data[..r]));
    ScatterFiles(v, disk, files, ino, off, data[..r]);
    bytes' := SpoiledFiles(v, Scatter(disk, inode, off, data[..r]), disk', files[ino := f1], ino,
                           inode, (off + r) / SECTOR);
    assert files[ino := f1][ino := f1.(bytes := bytes')] == files[ino := f.(bytes := bytes')];
    CountedBytes(f.bytes, bytes', off, data, n, r);
  }

  lemma ShortWriteSpoils(v: Volume, disk: seq<byte>, disk': seq<byte>, inode: seq<byte>, off: nat,
                         data: seq<byte>, n: nat, r: nat, trace: seq<Io>, trace': seq<Io>)
    requires |inode| == INODE && off + |data| <= MAX_FILE
    requires FileWriteShort(disk, disk', inode, off, data, n, r, trace, trace')
    ensures n <= r < |data| && (off + n) / BLOCK == (off + r) / BLOCK && CutAt(off, r)
    ensures (off + r) / SECTOR < MAX_FILE / SECTOR && (off + r) / SECTOR * SECTOR <= off + r
    ensures var s := FileSector(inode, (off + r) / SECTOR) * SECTOR;
      SameOutside(disk', Scatter(disk, inode, off, data[..r]), s, s + SECTOR)
  {
  }

  lemma ScatterFiles(v: Volume, disk: seq<byte>, files: map<u32, File>, ino: u32, off: nat,
                     data: seq<byte>)
    requires Files(v, disk) == Some(files) && ino in files && off + |data| <= |files[ino].bytes|
    ensures off + |data| <= MAX_FILE
    ensures var disk1 := Scatter(disk, InodeBytes(v, disk, ino), off, data);
      && Files(v, disk1)
         == Some(files[ino := files[ino].(bytes := Splice(files[ino].bytes, off, data))])
      && InodeBytes(v, disk1, ino) == InodeBytes(v, disk, ino)
  {
    assert Abs(v, disk)[ino] == FileAt(v, disk, ino);
    WriteSplices(v, disk, ino, off, data);
    InodeKeptByWrite(v, disk, ino, off, data);
  }

  lemma SpoiledFiles(v: Volume, disk: seq<byte>, disk': seq<byte>, files: map<u32, File>,
                     ino: u32, inode: seq<byte>, fs: nat) returns (bytes': seq<byte>)
    requires Files(v, disk) == Some(files) && ino in files && inode == InodeBytes(v, disk, ino)
    requires fs * SECTOR < |files[ino].bytes| && fs < MAX_FILE / SECTOR
    requires var s := FileSector(inode, fs) * SECTOR; SameOutside(disk', disk, s, s + SECTOR)
    ensures Files(v, disk') == Some(files[ino := files[ino].(bytes := bytes')])
    ensures SameOutside(bytes', files[ino].bytes, fs * SECTOR, fs * SECTOR + SECTOR)
  {
    assert Abs(v, disk)[ino] == FileAt(v, disk, ino);
    SpoiledFile(v, disk, disk', ino, fs);
    bytes' := FileAt(v, disk', ino).bytes;
  }

  lemma InodeKeptByWrite(v: Volume, disk: seq<byte>, ino: u32, off: nat, data: seq<byte>)
    requires Holds(v, disk) && ino in v.files && off + |data| <= FileLen(v, ino)
    ensures var disk1 := Scatter(disk, InodeBytes(v, disk, ino), off, data);
      InodeBytes(v, disk1, ino) == InodeBytes(v, disk, ino)
  {
    ScatterOnlyFileBytes(v, disk, ino, off, data);
    InodeKept(v, disk, Scatter(disk, InodeBytes(v, disk, ino), off, data), ino, off, |data|, ino);
  }

  /** The files of a disk whose only damage is one sector of one file. */
  lemma SpoiledFile(v: Volume, disk: seq<byte>, disk': seq<byte>, ino: u32, fs: nat)
    requires Holds(v, disk) && ino in v.files && fs * SECTOR < FileLen(v, ino)
    requires var s := FileSector(InodeBytes(v, disk, ino), fs) * SECTOR;
      SameOutside(disk', disk, s, s + SECTOR)
    ensures Holds(v, disk')
    ensures SameOutside(FileAt(v, disk', ino).bytes, FileAt(v, disk, ino).bytes,
                        fs * SECTOR, fs * SECTOR + SECTOR)
    ensures Abs(v, disk')
         == Abs(v, disk)[ino := FileAt(v, disk, ino).(bytes := FileAt(v, disk', ino).bytes)]
  {
    SpoiledSector(v, disk, disk', ino, fs);
    LayoutKept(v, disk, disk', ino, fs * SECTOR, SECTOR);
    InodeKept(v, disk, disk', ino, fs * SECTOR, SECTOR, ino);
    forall other | other in v.files && other != ino
      ensures FileAt(v, disk', other) == FileAt(v, disk, other)
    {
      OtherFileKept(v, disk, disk', ino, fs * SECTOR, SECTOR, other);
    }
    AbsUpdate(v, disk, disk', ino, FileAt(v, disk', ino));
    SpoiledBytes(v, disk, disk', ino, fs);
  }

  lemma SpoiledBytes(v: Volume, disk: seq<byte>, disk': seq<byte>, ino: u32, fs: nat)
    requires Holds(v, disk) && Holds(v, disk') && ino in v.files
    requires fs * SECTOR + SECTOR <= FileLen(v, ino)
    requires InodeBytes(v, disk', ino) == InodeBytes(v, disk, ino)
    requires OnlyFileBytes(v, disk, disk', ino, fs * SECTOR, SECTOR)
    ensures SameOutside(FileAt(v, disk', ino).bytes, FileAt(v, disk, ino).bytes,
                        fs * SECTOR, fs * SECTOR + SECTOR)
  {
    hide Phys, InodeBytes, Gather;
    var inode := InodeBytes(v, disk, ino);
    forall i | 0 <= i < FileLen(v, ino) && !(fs * SECTOR <= i < fs * SECTOR + SECTOR)
      ensures FileAt(v, disk', ino).bytes[i] == FileAt(v, disk, ino).bytes[i]
    {
      PhysIs(v, disk, ino, i);
      var p := Phys(inode, i);
      if disk'[p] != disk[p] {
        var j :| fs * SECTOR <= j < fs * SECTOR + SECTOR && Phys(inode, j) == p;
        PhysInjective(v, disk, ino, i, ino, j);
      }
      GatherAt(disk', inode, 0, FileLen(v, ino), i);
      GatherAt(disk, inode, 0, FileLen(v, ino), i);
    }
  }

  /** The counted bytes lie before the failing sector. */
  lemma CountedBytes(bytes: seq<byte>, bytes': seq<byte>, off: nat, data: seq<byte>, n: nat, r: nat)
    requires off + |data| <= |bytes| && n <= r < |data| && CutAt(off, r)
    requires var bad := (off + r) / SECTOR * SECTOR;
      SameOutside(bytes', Splice(bytes, off, data[..r]), bad, bad + SECTOR)
    ensures bytes'[off..off + n] == data[..n]
  {
    forall i | 0 <= i < n ensures bytes'[off + i] == data[i] {
      SpliceAt(bytes, off, data[..r], off + i);
    }
  }

  /** The number of sectors of a transfer, at file level and of one flat request alike. */
  lemma SpanCount(off: nat, n: nat)
    requires n > 0
    ensures Span(off, n) == (off + n + SECTOR - 1) / SECTOR - off / SECTOR
  {
  }

  /** A transfer touches each of its sectors once: two of them never coincide on the disk. */
  lemma SectorsDistinct(v: Volume, disk: seq<byte>, ino: u32, off: nat, n: nat, j: nat, k: nat)
    requires Holds(v, disk) && ino in v.files && off + n <= FileLen(v, ino) && 0 < n
    requires j < k < Span(off, n)
    ensures var sectors := FileSectors(InodeBytes(v, disk, ino), off, n);
      sectors[j] != sectors[k]
  {
    hide Phys, FileSector, InodeBytes;
    var inode := InodeBytes(v, disk, ino);
    var fj, fk := off / SECTOR + j, off / SECTOR + k;
    if FileSector(inode, fj) == FileSector(inode, fk) {
      var p := FileSector(inode, fj) * SECTOR;
      SectorBytes(v, disk, ino, fj, p);
      SectorBytes(v, disk, ino, fk, p);
      PhysInjective(v, disk, ino, fj * SECTOR, ino, fk * SECTOR);
    }
  }

  // ----- a write, a read and a stamp at the level of files, on a device that may fail

  /** What one file operation did: whether every descriptor it used was right, the disk before the
      stamp, the count reported for the bytes, how many bytes arrived, and whether the stamp was
      stored. */
  datatype Transfer = Transfer(aimed: bool, disk: seq<byte>, count: int, arrived: nat, stamped: bool)

  /** The number returned is the count, unless the stamp failed; and every descriptor was right
      unless a request for it failed. */
  ghost predicate Logged(sb: Superblock, ino: u32, r: int, t: Transfer, trace: seq<Io>,
                         trace': seq<Io>)
    requires sb.inodesPerGroup > 0
  {
    && r == (if t.stamped then t.count else -1)
    && |trace| <= |trace'| && trace'[..|trace|] == trace
    && (GroupIo(sb, ino, false) !in trace'[|trace|..] ==> t.aimed)
  }

  /** A file after a write that counted `n` bytes of `data` while `r` had arrived. Nothing happened
      for a count of -1; a full count is a splice; after a short one the counted bytes are in place
      and only one sector, in the block where the count stops, may differ from the splice of what
      arrived. */
  ghost predicate Written(bytes: seq<byte>, bytes': seq<byte>, off: nat, data: seq<byte>,
                          n: int, r: nat)
    requires off + |data| <= |bytes|
  {
    && -1 <= n <= |data| && |bytes'| == |bytes|
    && (n == -1 ==> bytes' == bytes)
    && (n == |data| ==> bytes' == Splice(bytes, off, data))
    && (0 <= n < |data| ==>
          && n <= r < |data| && (off + n) / BLOCK == (off + r) / BLOCK
          && bytes'[off..off + n] == data[..n]
          && var bad := (off + r) / SECTOR * SECTOR;
          SameOutside(bytes', Splice(bytes, off, data[..r]), bad, bad + SECTOR))
  }

  /** The disk stands for the same files but for the bytes of one, which was written so. */
  ghost predicate OneWritten(v: Volume, files: map<u32, File>, disk': seq<byte>, ino: u32, off: nat,
                             data: seq<byte>, n: int, r: nat)
    requires ino in files && off + |data| <= |files[ino].bytes|
  {
    && Files(v, disk').Some?
    && var files' := Files(v, disk').value;
    && ino in files' && files' == files[ino := files[ino].(bytes := files'[ino].bytes)]
    && Written(files[ino].bytes, files'[ino].bytes, off, data, n, r)
  }

  /** Whatever the device did, a write whose inode was fetched from the right place, or not at all,
      changes no file but its own, and that file as `Written` says. */
  lemma WriteOutcome(v: Volume, disk: seq<byte>, disk': seq<byte>, files: map<u32, File>, ino: u32,
                     inode: seq<byte>, off: nat, data: seq<byte>, n: int, r: nat,
                     trace: seq<Io>, trace': seq<Io>)
    requires Files(v, disk) == Some(files) && ino in files && off + |data| <= |files[ino].bytes|
    requires |inode| == INODE && off + |data| <= MAX_FILE
    requires WriteResult(disk, disk', inode, off, data, n, r, trace, trace')
    requires n != -1 ==> v.sb.inodesPerGroup > 0 && IsInode(disk, v.sb, ino, inode)
    ensures OneWritten(v, files, disk', ino, off, data, n, r)
    ensures Files(v, disk').Some? && ino in Files(v, disk').value
  {
    hide Files, Scatter, Splice, InodeAt, InodeBytes, FileWriteShort, GroupOnDisk;
    if n == -1 {
      assert files[ino].(bytes := files[ino].bytes) == files[ino];
      assert files[ino := files[ino]] == files;
    } else {
      StoredInode(v, disk, files, ino);
      if n == |data| {
        ScatterFiles(v, disk, files, ino, off, data);
      } else {
        var bytes' := ShortWriteSound(v, disk, disk', files, ino, inode, off, data, n, r, trace, trace');
      }
    }
  }

  lemma StoredInode(v: Volume, disk: seq<byte>, files: map<u32, File>, ino: u32)
    requires Files(v, disk) == Some(files) && ino in files
    ensures v.sb.inodesPerGroup > 0 && GroupOnDisk(disk, v.sb, ino) && Numbered(v, ino)
    ensures InodePos(disk, v.sb, ino) == Place(v, ino)
    ensures InodeAt(disk, v.sb, ino) == Some(InodeBytes(v, disk, ino))
  {
    hide GroupOf, InodePos, InodeBytes, Place, TableOf, InodeAt, FileAt;
    Located(v, disk, ino);
  }

  /** A stamp of that file: stored, or at most the sector of its inode differs. */
  ghost predicate OneStamped(v: Volume, disk: seq<byte>, disk': seq<byte>, ino: u32, f: Stamp,
                             t: u32, ok: bool)
    requires Files(v, disk).Some? && ino in Files(v, disk).value
  {
    var files := Files(v, disk).value;
    && (ok ==> Files(v, disk') == Some(files[ino := WithStamp(files[ino], f, t)]))
    && (!ok ==> (Numbered(v, ino) &&
                 var s := SectorOf(Place(v, ino)) * SECTOR;
                 SameOutside(disk', disk, s, s + SECTOR)))
  }

  lemma StampOutcome(v: Volume, disk: seq<byte>, disk': seq<byte>, ino: u32, f: Stamp, t: u32,
                     ok: bool)
    requires Files(v, disk).Some? && ino in Files(v, disk).value
    requires v.sb.inodesPerGroup > 0 && StampStored(disk, disk', v.sb, ino, f, t, ok)
    ensures OneStamped(v, disk, disk', ino, f, t, ok)
  {
    hide Files, InodeAt, InodePos, Splice, SameOutside, GroupOnDisk, GroupOf, Place, InodeBytes;
    var files := Files(v, disk).value;
    StoredInode(v, disk, files, ino);
    if ok {
      FileStamped(v, disk, files, ino, f, t);
    }
  }

  /** What a read delivers of a file: nothing for a count of -1, and otherwise exactly the `r` bytes
      that arrived, at least as many as were counted. */
  ghost predicate Delivered(bytes: seq<byte>, off: nat, len: nat, n: int, r: nat,
                            out: seq<byte>, out': seq<byte>)
    requires off + len <= |bytes|
  {
    && -1 <= n <= len
    && (n == -1 ==> out' == out)
    && (n != -1 ==> n <= r <= len && out' == Splice(out, 0, bytes[off..off + r]))
    && (n == len ==> r == len)
    && (0 <= n < len ==> r < len && (off + n) / BLOCK == (off + r) / BLOCK)
  }

  lemma ReadOutcome(v: Volume, disk: seq<byte>, files: map<u32, File>, ino: u32, inode: seq<byte>,
                    off: nat, len: nat, n: int, r: nat, out: seq<byte>, out': seq<byte>,
                    trace: seq<Io>, trace': seq<Io>)
    requires Files(v, disk) == Some(files) && ino in files && off + len <= |files[ino].bytes|
    requires |inode| == INODE && off + len <= MAX_FILE
    requires ReadResult(disk, inode, off, len, n, r, out, out', trace, trace')
    requires n != -1 ==> v.sb.inodesPerGroup > 0 && IsInode(disk, v.sb, ino, inode)
    ensures Delivered(files[ino].bytes, off, len, n, r, out, out')
  {
    hide Files, Gather, Splice, InodeAt, FileReads, FileOnDisk, GroupOnDisk, FileSector;
    if n != -1 {
      FileFacts(v, disk, files, ino, off, r);
    }
  }

  /** A file operation asks for the descriptor once to transfer and once or twice to stamp. A request
      that failed is found in the trace. */
  lemma MissIsTraced(sb: Superblock, ino: u32, g: bool, g1: bool, g2: bool,
                     trace: seq<Io>, trace1: seq<Io>, trace': seq<Io>)
    requires sb.inodesPerGroup > 0 && |trace| < |trace1| < |trace'|
    requires trace1[..|trace|] == trace && trace'[..|trace1|] == trace1
    requires trace1[|trace|] == GroupIo(sb, ino, g) && trace'[|trace1|] == GroupIo(sb, ino, g1)
    requires trace'[|trace1|] == GroupIo(sb, ino, g2)
      || (|trace1| + 2 < |trace'| && trace'[|trace1| + 2] == GroupIo(sb, ino, g2))
    ensures trace'[..|trace|] == trace
    ensures GroupIo(sb, ino, false) !in trace'[|trace|..] ==> g && g1 && g2
  {
    hide GroupIo;
    var added := trace'[|trace|..];
    assert added[0] == trace1[|trace|] && added[|trace1| - |trace|] == trace'[|trace1|];
    assert trace'[..|trace|] == trace'[..|trace1|][..|trace|];
    assert |trace1| + 2 < |trace'| ==> added[|trace1| + 2 - |trace|] == trace'[|trace1| + 2];
  }

  // ----- a descriptor that did not arrive

  /** A fetch from the sample volume that was placed by bytes with a zero table block reports the
      inode of another place, never the one that was asked for. */
  lemma StaleFetch(g: bool, desc: seq<byte>, inode: seq<byte>, trace: seq<Io>, trace': seq<Io>)
    requires InodeFetched(SampleDisk(), Superblock(2), 2, g, desc, true, inode, trace, trace')
    requires TableOf(desc) % 0x40_0000 == 0
    ensures !g && inode == SampleDisk()[256..512]
    ensures SampleDisk()[256..512] != SampleDisk()[3328..3584]
  {
    hide SampleDisk, TableOf, Pointer;
    var disk, sb := SampleDisk(), Superblock(2);
    SampleFields();
    SampleDiffers();
    assert GroupOf(sb, 2) == 0 && IndexInGroup(sb, 2) == 1;
    assert GroupAt(disk, 0) == disk[2048..2080];
    assert BlockPos(TableOf(desc)) == TableOf(desc) % 0x40_0000 * BLOCK;
  }

  lemma SampleDiffers()
    ensures SampleDisk()[256..512] != SampleDisk()[3328..3584]
  {
    var stale, inode := SampleDisk()[256..512], SampleDisk()[3328..3584];
    assert stale[40] == 0 && inode[40] == 4;
  }

  /** Such a run exists, on a disk that records a well-formed volume: the descriptor read fails, the
      buffer holds zero bytes, the second read succeeds and the fetch reports success with bytes
      that are not the inode. */
  lemma StaleDescriptorExample()
    ensures var disk, sb := SampleDisk(), Superblock(2);
      var stale: seq<byte> := seq(GROUP, _ => 0);
      && Holds(SampleVolume(), disk) && GroupOnDisk(disk, sb, 2)
      && InodeFetched(disk, sb, 2, false, stale, true, disk[256..512],
                      [], [Io(ReadOp, 4, false), Io(ReadOp, 0, true)])
      && InodeAt(disk, sb, 2) == Some(disk[3328..3584]) && disk[256..512] != disk[3328..3584]
  {
    var disk, sb := SampleDisk(), Superblock(2);
    var stale: seq<byte> := seq(GROUP, _ => 0);
    var trace := [Io(ReadOp, 4, false), Io(ReadOp, 0, true)];
    assert stale[8..12] == [0, 0, 0, 0];
    SmallField(0);
    assert TableOf(stale) == 0;
    SampleHolds();
    hide SampleDisk, TableOf, Pointer, FromLe;
    assert GroupOf(sb, 2) == 0 && IndexInGroup(sb, 2) == 1;
    assert [] + trace == trace;
    StaleFetch(false, stale, disk[256..512], [], trace);
    Located(SampleVolume(), disk, 2);
    SampleWellFormed();
  }
}

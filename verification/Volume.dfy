/** A well-formed ext2 volume, and the map from inode numbers to files that its disk stands for. */
module Volumes {
  import opened Words
  import opened Bytes
  import opened Arithmetic
  import opened Virtio
  import opened Blk
  import opened Ext2Disk

  /** A file as its user sees it. It is `closed` if its block map ends with its bytes, so that a scan
      of it as a directory sees these bytes and no others. */
  datatype File = File(bytes: seq<byte>, atime: u32, ctime: u32, mtime: u32, closed: bool)

  /** The layout that reads and writes must keep: the inode table of every group and the data
      blocks of every file in use. */
  datatype Volume = Volume(sb: Superblock, tables: seq<u32>, files: map<u32, seq<u32>>, size: nat)

  ghost function GroupsEnd(v: Volume): nat { GroupPos(|v.tables|) }

  ghost function TableStart(v: Volume, g: nat): nat
    requires g < |v.tables|
  {
    v.tables[g] * BLOCK
  }

  ghost function TableEnd(v: Volume, g: nat): nat
    requires g < |v.tables|
  {
    TableStart(v, g) + INODE * v.sb.inodesPerGroup
  }

  ghost predicate Apart(lo: nat, hi: nat, lo': nat, hi': nat) { hi <= lo' || hi' <= lo }

  /** A block outside the superblock, the group descriptors and the inode tables. */
  ghost predicate DataBlock(v: Volume, b: u32) {
    && b < 0x40_0000 && GroupsEnd(v) <= b * BLOCK && b * BLOCK + BLOCK <= v.size
    && forall g :: 0 <= g < |v.tables| ==>
         Apart(b * BLOCK, b * BLOCK + BLOCK, TableStart(v, g), TableEnd(v, g))
  }

  ghost predicate TablesFit(v: Volume) {
    && (forall g :: 0 <= g < |v.tables| ==>
          v.tables[g] < 0x40_0000 && GroupsEnd(v) <= TableStart(v, g) && TableEnd(v, g) <= v.size)
    && (forall g, h :: 0 <= g < h < |v.tables| ==>
          Apart(TableStart(v, g), TableEnd(v, g), TableStart(v, h), TableEnd(v, h)))
  }

  /** The inode numbers that some group holds. */
  ghost predicate Numbered(v: Volume, ino: u32) {
    v.sb.inodesPerGroup > 0 && ino >= 1 && GroupOf(v.sb, ino) < |v.tables|
  }

  ghost predicate WellFormed(v: Volume) {
    && v.sb.inodesPerGroup > 0 && GroupsEnd(v) <= v.size
    && TablesFit(v)
    && (forall ino :: ino in v.files ==> Numbered(v, ino) && |v.files[ino]| <= POINTERS)
    && (forall ino, k :: ino in v.files && 0 <= k < |v.files[ino]| ==> DataBlock(v, v.files[ino][k]))
    && (forall ino, k, ino', k' ::
          (ino in v.files && 0 <= k < |v.files[ino]| && ino' in v.files && 0 <= k' < |v.files[ino']|
           && v.files[ino][k] == v.files[ino'][k']) ==> ino == ino' && k == k')
  }

  /** Where the layout puts an inode. */
  ghost function Place(v: Volume, ino: u32): nat
    requires Numbered(v, ino)
  {
    TableStart(v, GroupOf(v.sb, ino)) + INODE * IndexInGroup(v.sb, ino)
  }

  lemma PlaceInTable(v: Volume, ino: u32)
    requires WellFormed(v) && Numbered(v, ino)
    ensures TableStart(v, GroupOf(v.sb, ino)) <= Place(v, ino)
    ensures Place(v, ino) + INODE <= TableEnd(v, GroupOf(v.sb, ino)) <= v.size
    ensures GroupsEnd(v) <= Place(v, ino)
  {
    IndexBelow(v.sb, ino);
    hide GroupOf, IndexInGroup;
  }

  lemma IndexBelow(sb: Superblock, ino: u32)
    requires sb.inodesPerGroup > 0
    ensures IndexInGroup(sb, ino) < sb.inodesPerGroup
  {
  }

  /** Group and index identify an inode number. */
  lemma NumberUnique(sb: Superblock, ino: u32, ino': u32)
    requires sb.inodesPerGroup > 0 && ino >= 1 && ino' >= 1
    requires GroupOf(sb, ino) == GroupOf(sb, ino') && IndexInGroup(sb, ino) == IndexInGroup(sb, ino')
    ensures ino == ino'
  {
    Divide(sb.inodesPerGroup, ino - 1, GroupOf(sb, ino), IndexInGroup(sb, ino));
    Divide(sb.inodesPerGroup, ino' - 1, GroupOf(sb, ino'), IndexInGroup(sb, ino'));
  }

  /** Places follow the numbers: inode 1 opens the first table, and every next number takes the
      next entry, or the first entry of the next table when the last is used up. */
  lemma PlacesInOrder(v: Volume, ino: u32)
    requires WellFormed(v) && Numbered(v, ino) && ino < 0xffff_ffff && Numbered(v, ino + 1)
    ensures ino == 1 ==> Place(v, ino) == TableStart(v, 0)
    ensures var g, last := GroupOf(v.sb, ino), IndexInGroup(v.sb, ino) + 1 == v.sb.inodesPerGroup;
      if last then g + 1 < |v.tables| && Place(v, ino + 1) == TableStart(v, g + 1)
      else Place(v, ino + 1) == Place(v, ino) + INODE
  {
    hide GroupOf, IndexInGroup;
    NumbersInOrder(v.sb, ino);
  }

  lemma NumbersInOrder(sb: Superblock, ino: u32)
    requires sb.inodesPerGroup > 0 && 1 <= ino < 0xffff_ffff
    ensures ino == 1 ==> GroupOf(sb, ino) == 0 && IndexInGroup(sb, ino) == 0
    ensures if IndexInGroup(sb, ino) + 1 == sb.inodesPerGroup
      then GroupOf(sb, ino + 1) == GroupOf(sb, ino) + 1 && IndexInGroup(sb, ino + 1) == 0
      else GroupOf(sb, ino + 1) == GroupOf(sb, ino)
           && IndexInGroup(sb, ino + 1) == IndexInGroup(sb, ino) + 1
  {
    IndexBelow(sb, ino);
    NextNumber(sb.inodesPerGroup, ino - 1);
    assert Wrap32(ino - 1) == ino - 1 && Wrap32(ino + 1 - 1) == ino - 1 + 1;
  }

  lemma NextNumber(n: nat, x: nat)
    requires n > 0
    ensures x % n + 1 == n ==> (x + 1) / n == x / n + 1 && (x + 1) % n == 0
    ensures x % n + 1 < n ==> (x + 1) / n == x / n && (x + 1) % n == x % n + 1
    ensures x == 0 ==> x / n == 0 && x % n == 0
  {
    Divide(n, x, x / n, x % n);
    if x % n + 1 == n {
      assert x + 1 == n * (x / n + 1) + 0;
      Quotient(n, x / n + 1, 0);
    } else {
      assert x + 1 == n * (x / n) + (x % n + 1);
      Quotient(n, x / n, x % n + 1);
    }
    if x == 0 {
      Quotient(n, 0, 0);
    }
  }

  /** Distinct inodes have disjoint places. */
  lemma PlacesApart(v: Volume, ino: u32, ino': u32)
    requires WellFormed(v) && Numbered(v, ino) && Numbered(v, ino') && ino != ino'
    ensures Apart(Place(v, ino), Place(v, ino) + INODE, Place(v, ino'), Place(v, ino') + INODE)
  {
    var g, g' := GroupOf(v.sb, ino), GroupOf(v.sb, ino');
    PlaceInTable(v, ino);
    PlaceInTable(v, ino');
    if g == g' && IndexInGroup(v.sb, ino) == IndexInGroup(v.sb, ino') {
      NumberUnique(v.sb, ino, ino');
    }
    hide GroupOf, IndexInGroup;
    if g < g' {
      assert Apart(TableStart(v, g), TableEnd(v, g), TableStart(v, g'), TableEnd(v, g'));
    } else if g' < g {
      assert Apart(TableStart(v, g'), TableEnd(v, g'), TableStart(v, g), TableEnd(v, g));
    }
  }

  ghost function InodeBytes(v: Volume, disk: seq<byte>, ino: u32): (r: seq<byte>)
    requires WellFormed(v) && Numbered(v, ino) && |disk| == v.size
    ensures |r| == INODE
  {
    PlaceInTable(v, ino);
    disk[Place(v, ino)..Place(v, ino) + INODE]
  }

  /** The disk records this layout. */
  ghost predicate Holds(v: Volume, disk: seq<byte>) {
    && WellFormed(v) && |disk| == v.size
    && (forall g :: 0 <= g < |v.tables| ==> TableOf(GroupAt(disk, g)) == v.tables[g])
    && (forall ino, k :: ino in v.files && 0 <= k < |v.files[ino]| ==>
          Pointer(InodeBytes(v, disk, ino), k) == v.files[ino][k])
  }

  /** On a disk that records the layout, the file system finds every inode at its place. */
  lemma Located(v: Volume, disk: seq<byte>, ino: u32)
    requires Holds(v, disk) && Numbered(v, ino)
    ensures GroupOnDisk(disk, v.sb, ino) && InodePos(disk, v.sb, ino) == Place(v, ino)
    ensures InodeAt(disk, v.sb, ino) == Some(InodeBytes(v, disk, ino))
  {
    PlaceInTable(v, ino);
    hide GroupOf, IndexInGroup, TableOf;
    var g := GroupOf(v.sb, ino);
    assert TableOf(GroupAt(disk, g)) == v.tables[g];
  }

  ghost function FileLen(v: Volume, ino: u32): (n: nat)
    requires ino in v.files
  {
    BLOCK * |v.files[ino]|
  }

  ghost function FileAt(v: Volume, disk: seq<byte>, ino: u32): (f: File)
    requires Holds(v, disk) && ino in v.files
    ensures |f.bytes| == FileLen(v, ino)
  {
    var inode := InodeBytes(v, disk, ino);
    File(Gather(disk, inode, 0, FileLen(v, ino)),
         StampOf(inode, ATime), StampOf(inode, CTime), StampOf(inode, MTime),
         MapEnds(inode, |v.files[ino]|))
  }

  /** What the disk stands for. */
  ghost function Abs(v: Volume, disk: seq<byte>): map<u32, File>
    requires Holds(v, disk)
  {
    map ino | ino in v.files :: FileAt(v, disk, ino)
  }

  /** The files that a disk stands for, if it records the layout. */
  ghost function Files(v: Volume, disk: seq<byte>): Option<map<u32, File>> {
    if Holds(v, disk) then Some(Abs(v, disk)) else None
  }

  /** Two disks whose files agree but for one stand for maps that agree but for one. */
  lemma AbsUpdate(v: Volume, disk: seq<byte>, disk': seq<byte>, ino: u32, file: File)
    requires Holds(v, disk) && Holds(v, disk') && ino in v.files
    requires FileAt(v, disk', ino) == file
    requires forall other :: other in v.files && other != ino ==>
      FileAt(v, disk', other) == FileAt(v, disk, other)
    ensures Abs(v, disk') == Abs(v, disk)[ino := file]
  {
    hide FileAt, Holds;
  }

  /** File byte `i` lies in the file's own block. */
  lemma PhysIs(v: Volume, disk: seq<byte>, ino: u32, i: nat)
    requires Holds(v, disk) && ino in v.files && i < FileLen(v, ino)
    ensures i / BLOCK < |v.files[ino]|
    ensures Phys(InodeBytes(v, disk, ino), i) == v.files[ino][i / BLOCK] * BLOCK + i % BLOCK
    ensures Phys(InodeBytes(v, disk, ino), i) < v.size
  {
    var k := i / BLOCK;
    assert k < |v.files[ino]|;
    hide Pointer, InodeBytes;
    var b := v.files[ino][k];
    assert DataBlock(v, b);
    assert Pointer(InodeBytes(v, disk, ino), k) == b;
  }

  /** Different file bytes, of one file or two, have different places. */
  lemma PhysInjective(v: Volume, disk: seq<byte>, ino: u32, i: nat, ino': u32, i': nat)
    requires Holds(v, disk) && ino in v.files && i < FileLen(v, ino)
    requires ino' in v.files && i' < FileLen(v, ino')
    requires Phys(InodeBytes(v, disk, ino), i) == Phys(InodeBytes(v, disk, ino'), i')
    ensures ino == ino' && i == i'
  {
    PhysIs(v, disk, ino, i);
    PhysIs(v, disk, ino', i');
    hide Phys, InodeBytes;
    var b, b' := v.files[ino][i / BLOCK], v.files[ino'][i' / BLOCK];
    BlockUnique(b, b', i % BLOCK, i' % BLOCK);
    assert i == BLOCK * (i / BLOCK) + i % BLOCK && i' == BLOCK * (i' / BLOCK) + i' % BLOCK;
  }

  lemma BlockUnique(b: nat, b': nat, r: nat, r': nat)
    requires b * BLOCK + r == b' * BLOCK + r' && r < BLOCK && r' < BLOCK
    ensures b == b' && r == r'
  {
  }

  /** File bytes lie outside the group descriptors and every inode. */
  lemma PhysOutside(v: Volume, disk: seq<byte>, ino: u32, i: nat, ino': u32)
    requires Holds(v, disk) && ino in v.files && i < FileLen(v, ino) && Numbered(v, ino')
    ensures GroupsEnd(v) <= Phys(InodeBytes(v, disk, ino), i)
    ensures !(Place(v, ino') <= Phys(InodeBytes(v, disk, ino), i) < Place(v, ino') + INODE)
  {
    PhysIs(v, disk, ino, i);
    PlaceInTable(v, ino');
    hide Phys, InodeBytes, GroupOf, Place;
    var b := v.files[ino][i / BLOCK];
    var g := GroupOf(v.sb, ino');
    assert DataBlock(v, b);
    assert Apart(b * BLOCK, b * BLOCK + BLOCK, TableStart(v, g), TableEnd(v, g));
  }

  /** A scatter leaves alone every byte it does not aim at. */
  lemma {:induction false} ScatterElsewhere(disk: seq<byte>, inode: seq<byte>, off: nat,
                                            data: seq<byte>, p: nat)
    requires |inode| == INODE && off + |data| <= MAX_FILE && p < |disk|
    requires forall i :: off <= i < off + |data| ==> Phys(inode, i) != p
    ensures Scatter(disk, inode, off, data)[p] == disk[p]
    decreases |data|
  {
    hide Phys;
    if data != [] {
      ScatterElsewhere(disk, inode, off, data[..|data| - 1], p);
      assert Phys(inode, off + |data| - 1) != p;
    }
  }

  /** A scatter with distinct targets puts every byte where it aims it. */
  lemma {:induction false} ScatterHits(disk: seq<byte>, inode: seq<byte>, off: nat, data: seq<byte>,
                                       j: nat)
    requires |inode| == INODE && off + |data| <= MAX_FILE && j < |data|
    requires forall i :: off <= i < off + |data| ==> Phys(inode, i) < |disk|
    requires forall i, i' :: off <= i < i' < off + |data| ==> Phys(inode, i) != Phys(inode, i')
    ensures Scatter(disk, inode, off, data)[Phys(inode, off + j)] == data[j]
    decreases |data|
  {
    hide Phys;
    var k := |data| - 1;
    if j < k {
      ScatterHits(disk, inode, off, data[..k], j);
      assert Phys(inode, off + j) != Phys(inode, off + k);
    }
  }

  lemma {:induction false} GatherSame(disk: seq<byte>, disk': seq<byte>, inode: seq<byte>,
                                      off: nat, n: nat)
    requires |inode| == INODE && off + n <= MAX_FILE
    requires forall i :: off <= i < off + n ==>
      At(disk', Phys(inode, i)) == At(disk, Phys(inode, i))
    ensures Gather(disk', inode, off, n) == Gather(disk, inode, off, n)
  {
    hide Phys, At;
    if n != 0 {
      GatherSame(disk, disk', inode, off, n - 1);
      assert At(disk', Phys(inode, off + n - 1)) == At(disk, Phys(inode, off + n - 1));
    }
  }

  /** Nothing but the data block bytes of one file may differ. */
  ghost predicate OnlyFileBytes(v: Volume, disk: seq<byte>, disk': seq<byte>, ino: u32,
                                off: nat, n: nat)
    requires Holds(v, disk) && ino in v.files && off + n <= FileLen(v, ino)
  {
    && |disk'| == |disk|
    && forall p :: 0 <= p < |disk| && disk'[p] != disk[p] ==>
         exists i :: off <= i < off + n && Phys(InodeBytes(v, disk, ino), i) == p
  }

  lemma ScatterOnlyFileBytes(v: Volume, disk: seq<byte>, ino: u32, off: nat, data: seq<byte>)
    requires Holds(v, disk) && ino in v.files && off + |data| <= FileLen(v, ino)
    ensures OnlyFileBytes(v, disk, Scatter(disk, InodeBytes(v, disk, ino), off, data), ino, off, |data|)
  {
    hide Phys, InodeBytes, Scatter;
    var inode := InodeBytes(v, disk, ino);
    var disk' := Scatter(disk, inode, off, data);
    forall p | 0 <= p < |disk| && disk'[p] != disk[p]
      ensures exists i :: off <= i < off + |data| && Phys(inode, i) == p
    {
      if forall i :: off <= i < off + |data| ==> Phys(inode, i) != p {
        ScatterElsewhere(disk, inode, off, data, p);
      }
    }
  }

  /** Group descriptors and inodes survive any change confined to file bytes. */
  lemma MetadataKept(v: Volume, disk: seq<byte>, disk': seq<byte>, ino: u32, off: nat, n: nat,
                     lo: nat, hi: nat)
    requires Holds(v, disk) && ino in v.files && off + n <= FileLen(v, ino)
    requires OnlyFileBytes(v, disk, disk', ino, off, n)
    requires lo <= hi <= |disk|
    requires hi <= GroupsEnd(v)
      || exists ino' :: Numbered(v, ino') && lo == Place(v, ino') && hi == lo + INODE
    ensures disk'[lo..hi] == disk[lo..hi]
  {
    hide Phys, InodeBytes, Place, GroupOf;
    forall p | lo <= p < hi ensures disk'[p] == disk[p] {
      if disk'[p] != disk[p] {
        var i :| off <= i < off + n && Phys(InodeBytes(v, disk, ino), i) == p;
        if hi <= GroupsEnd(v) {
          PhysOutside(v, disk, ino, i, ino);
        } else {
          var ino' :| Numbered(v, ino') && lo == Place(v, ino') && hi == lo + INODE;
          PhysOutside(v, disk, ino, i, ino');
        }
      }
    }
  }

  lemma InodeKept(v: Volume, disk: seq<byte>, disk': seq<byte>, ino: u32, off: nat, n: nat, ino': u32)
    requires Holds(v, disk) && ino in v.files && off + n <= FileLen(v, ino) && Numbered(v, ino')
    requires OnlyFileBytes(v, disk, disk', ino, off, n)
    ensures InodeBytes(v, disk', ino') == InodeBytes(v, disk, ino')
  {
    PlaceInTable(v, ino');
    MetadataKept(v, disk, disk', ino, off, n, Place(v, ino'), Place(v, ino') + INODE);
  }

  lemma LayoutKept(v: Volume, disk: seq<byte>, disk': seq<byte>, ino: u32, off: nat, n: nat)
    requires Holds(v, disk) && ino in v.files && off + n <= FileLen(v, ino)
    requires OnlyFileBytes(v, disk, disk', ino, off, n)
    ensures Holds(v, disk')
  {
    forall g | 0 <= g < |v.tables| ensures TableOf(GroupAt(disk', g)) == v.tables[g] {
      MetadataKept(v, disk, disk', ino, off, n, GroupPos(g), GroupPos(g) + GROUP);
      assert TableOf(GroupAt(disk, g)) == v.tables[g];
    }
    forall ino', k | ino' in v.files && 0 <= k < |v.files[ino']|
      ensures Pointer(InodeBytes(v, disk', ino'), k) == v.files[ino'][k]
    {
      InodeKept(v, disk, disk', ino, off, n, ino');
    }
  }

  /** Another file reads as before. */
  lemma OtherFileKept(v: Volume, disk: seq<byte>, disk': seq<byte>, ino: u32, off: nat, n: nat,
                      other: u32)
    requires Holds(v, disk) && ino in v.files && off + n <= FileLen(v, ino)
    requires OnlyFileBytes(v, disk, disk', ino, off, n) && Holds(v, disk')
    requires other in v.files && other != ino
    ensures FileAt(v, disk', other) == FileAt(v, disk, other)
  {
    hide Phys, InodeBytes, StampOf, Gather;
    InodeKept(v, disk, disk', ino, off, n, other);
    var inode := InodeBytes(v, disk, other);
    forall i | 0 <= i < FileLen(v, other)
      ensures At(disk', Phys(inode, i)) == At(disk, Phys(inode, i))
    {
      PhysIs(v, disk, other, i);
      var p := Phys(inode, i);
      if disk'[p] != disk[p] {
        var j :| off <= j < off + n && Phys(InodeBytes(v, disk, ino), j) == p;
        PhysInjective(v, disk, other, i, ino, j);
      }
    }
    GatherSame(disk, disk', inode, 0, FileLen(v, other));
  }

  /** The written file is spliced. */
  lemma WrittenFile(v: Volume, disk: seq<byte>, ino: u32, off: nat, data: seq<byte>)
    requires Holds(v, disk) && ino in v.files && off + |data| <= FileLen(v, ino)
    ensures var inode := InodeBytes(v, disk, ino);
      Gather(Scatter(disk, inode, off, data), inode, 0, FileLen(v, ino))
      == Splice(Gather(disk, inode, 0, FileLen(v, ino)), off, data)
  {
    hide Phys, InodeBytes, Gather, Scatter, Splice;
    var inode := InodeBytes(v, disk, ino);
    var len := FileLen(v, ino);
    var disk' := Scatter(disk, inode, off, data);
    var before := Gather(disk, inode, 0, len);
    forall i | 0 <= i < len
      ensures Gather(disk', inode, 0, len)[i] == Splice(before, off, data)[i]
    {
      WrittenByte(v, disk, ino, off, data, i);
      GatherAt(disk', inode, 0, len, i);
      GatherAt(disk, inode, 0, len, i);
      SpliceAt(before, off, data, i);
    }
  }

  lemma WrittenByte(v: Volume, disk: seq<byte>, ino: u32, off: nat, data: seq<byte>, i: nat)
    requires Holds(v, disk) && ino in v.files && off + |data| <= FileLen(v, ino)
    requires i < FileLen(v, ino)
    ensures var inode := InodeBytes(v, disk, ino);
      At(Scatter(disk, inode, off, data), Phys(inode, i))
      == if off <= i < off + |data| then data[i - off] else At(disk, Phys(inode, i))
  {
    hide Phys, InodeBytes, Scatter;
    var inode := InodeBytes(v, disk, ino);
    PhysIs(v, disk, ino, i);
    if off <= i < off + |data| {
      forall j, j' | off <= j < j' < off + |data| ensures Phys(inode, j) != Phys(inode, j') {
        if Phys(inode, j) == Phys(inode, j') { PhysInjective(v, disk, ino, j, ino, j'); }
      }
      forall j | off <= j < off + |data| ensures Phys(inode, j) < |disk| {
        PhysIs(v, disk, ino, j);
      }
      ScatterHits(disk, inode, off, data, i - off);
    } else {
      forall j | off <= j < off + |data| ensures Phys(inode, j) != Phys(inode, i) {
        if Phys(inode, j) == Phys(inode, i) { PhysInjective(v, disk, ino, j, ino, i); }
      }
      ScatterElsewhere(disk, inode, off, data, Phys(inode, i));
    }
  }

  /** A file write splices its own file and changes no other file, no inode and no descriptor. */
  lemma WriteSplices(v: Volume, disk: seq<byte>, ino: u32, off: nat, data: seq<byte>)
    requires Holds(v, disk) && ino in v.files && off + |data| <= FileLen(v, ino)
    ensures var disk' := Scatter(disk, InodeBytes(v, disk, ino), off, data);
      var f := FileAt(v, disk, ino);
      && OnlyFileBytes(v, disk, disk', ino, off, |data|)
      && Files(v, disk') == Some(Abs(v, disk)[ino := f.(bytes := Splice(f.bytes, off, data))])
  {
    hide Phys, InodeBytes, Scatter, Gather, Splice, StampOf;
    var disk' := Scatter(disk, InodeBytes(v, disk, ino), off, data);
    ScatterOnlyFileBytes(v, disk, ino, off, data);
    LayoutKept(v, disk, disk', ino, off, |data|);
    InodeKept(v, disk, disk', ino, off, |data|, ino);
    WrittenFile(v, disk, ino, off, data);
    forall other | other in v.files && other != ino
      ensures FileAt(v, disk', other) == FileAt(v, disk, other)
    {
      OtherFileKept(v, disk, disk', ino, off, |data|, other);
    }
    AbsUpdate(v, disk, disk', ino, FileAt(v, disk', ino));
  }

  function WithStamp(file: File, f: Stamp, t: u32): File {
    match f
    case ATime => file.(atime := t)
    case CTime => file.(ctime := t)
    case MTime => file.(mtime := t)
  }

  /** Storing one stamp in an inode's bytes changes that field and no other. */
  lemma StampInBytes(inode: seq<byte>, f: Stamp, t: u32)
    requires |inode| == INODE
    ensures var inode' := Splice(inode, StampOffset(f), ToLe(t, 4));
      && StampOf(inode', f) == t
      && (forall f' :: f' != f ==> StampOf(inode', f') == StampOf(inode, f'))
      && (forall k :: 0 <= k < POINTERS ==> Pointer(inode', k) == Pointer(inode, k))
  {
    hide Splice, FromLe, ToLe;
    Pow256Values();
    LeRoundTrip(t, 4);
    var inode' := Splice(inode, StampOffset(f), ToLe(t, 4));
    SpliceReadBack(inode, StampOffset(f), ToLe(t, 4));
    forall f' | f' != f ensures StampOf(inode', f') == StampOf(inode, f') {
      SpliceElsewhere(inode, StampOffset(f), ToLe(t, 4), StampOffset(f'), StampOffset(f') + 4);
    }
    forall k | 0 <= k < POINTERS ensures Pointer(inode', k) == Pointer(inode, k) {
      SpliceElsewhere(inode, StampOffset(f), ToLe(t, 4), 40 + 4 * k, 40 + 4 * k + 4);
    }
  }

  /** Any 256 bytes stored at the place of an inode are what is there afterwards, and every other
      inode stays as it was. */
  lemma InodeReplaced(v: Volume, disk: seq<byte>, ino: u32, bytes: seq<byte>, ino': u32)
    requires WellFormed(v) && |disk| == v.size && |bytes| == INODE
    requires Numbered(v, ino) && Numbered(v, ino')
    ensures InodeBytes(v, Splice(disk, Place(v, ino), bytes), ino')
         == if ino' == ino then bytes else InodeBytes(v, disk, ino')
  {
    hide Splice, Place, GroupOf, IndexInGroup, TableStart, WellFormed;
    PlaceInTable(v, ino);
    PlaceInTable(v, ino');
    if ino' == ino {
      SpliceReadBack(disk, Place(v, ino), bytes);
    } else {
      PlacesApart(v, ino, ino');
      SpliceElsewhere(disk, Place(v, ino), bytes, Place(v, ino'), Place(v, ino') + INODE);
    }
  }

  /** Storing one inode and fetching another commute, whatever the 256 bytes are: the fetch delivers
      the stored bytes for that inode and for any other what it delivered before. */
  lemma StoreThenFetch(v: Volume, disk: seq<byte>, ino: u32, bytes: seq<byte>, ino': u32)
    requires Holds(v, disk) && Numbered(v, ino) && Numbered(v, ino') && |bytes| == INODE
    ensures var disk' := Splice(disk, Place(v, ino), bytes);
      && GroupOnDisk(disk, v.sb, ino') && GroupOnDisk(disk', v.sb, ino')
      && InodePos(disk', v.sb, ino') == InodePos(disk, v.sb, ino') == Place(v, ino')
      && InodeAt(disk', v.sb, ino')
         == if ino' == ino then Some(bytes) else InodeAt(disk, v.sb, ino')
  {
    hide Splice, Place, GroupOf, IndexInGroup, TableStart, WellFormed, TableOf, Pointer;
    Located(v, disk, ino');
    GroupsReplaced(v, disk, ino, bytes, ino');
    InodeReplaced(v, disk, ino, bytes, ino');
    InodeAtPlace(v, Splice(disk, Place(v, ino), bytes), ino');
  }

  /** Storing an inode leaves every group descriptor alone. */
  lemma GroupsReplaced(v: Volume, disk: seq<byte>, ino: u32, bytes: seq<byte>, ino': u32)
    requires WellFormed(v) && |disk| == v.size && |bytes| == INODE
    requires Numbered(v, ino) && Numbered(v, ino') && GroupOnDisk(disk, v.sb, ino')
    ensures var disk' := Splice(disk, Place(v, ino), bytes);
      GroupOnDisk(disk', v.sb, ino') && InodePos(disk', v.sb, ino') == InodePos(disk, v.sb, ino')
  {
    hide Splice, Place, GroupOf, IndexInGroup, TableStart, WellFormed, TableOf, PosInTable;
    var g := GroupOf(v.sb, ino');
    PlaceInTable(v, ino);
    SpliceElsewhere(disk, Place(v, ino), bytes, GroupPos(g), GroupPos(g) + GROUP);
    assert GroupAt(Splice(disk, Place(v, ino), bytes), g) == GroupAt(disk, g);
  }

  lemma InodeAtPlace(v: Volume, disk: seq<byte>, ino: u32)
    requires WellFormed(v) && |disk| == v.size && Numbered(v, ino)
    requires GroupOnDisk(disk, v.sb, ino) && InodePos(disk, v.sb, ino) == Place(v, ino)
    ensures InodeAt(disk, v.sb, ino) == Some(InodeBytes(v, disk, ino))
  {
    hide Place, InodePos, GroupOf, IndexInGroup, WellFormed;
    PlaceInTable(v, ino);
  }

  /** The inode bytes after a stamp was written to the disk: the other inodes are untouched. */
  lemma StampedInode(v: Volume, disk: seq<byte>, ino: u32, f: Stamp, t: u32, ino': u32)
    requires Holds(v, disk) && Numbered(v, ino) && Numbered(v, ino')
    ensures var disk' := Splice(disk, Place(v, ino) + StampOffset(f), ToLe(t, 4));
      InodeBytes(v, disk', ino') == if ino' == ino
        then Splice(InodeBytes(v, disk, ino), StampOffset(f), ToLe(t, 4))
        else InodeBytes(v, disk, ino')
  {
    hide Splice, Place, ToLe, GroupOf, IndexInGroup, TableStart, TableOf, Pointer;
    PlaceInTable(v, ino);
    SpliceWindow(disk, Place(v, ino), INODE, StampOffset(f), ToLe(t, 4));
    InodeReplaced(v, disk, ino, Splice(InodeBytes(v, disk, ino), StampOffset(f), ToLe(t, 4)), ino');
  }

  lemma StampKeepsLayout(v: Volume, disk: seq<byte>, ino: u32, f: Stamp, t: u32)
    requires Holds(v, disk) && Numbered(v, ino)
    ensures Holds(v, Splice(disk, Place(v, ino) + StampOffset(f), ToLe(t, 4)))
  {
    hide Splice, Place, ToLe, InodeBytes, Pointer, TableOf;
    var at := Place(v, ino) + StampOffset(f);
    var disk' := Splice(disk, at, ToLe(t, 4));
    PlaceInTable(v, ino);
    forall g | 0 <= g < |v.tables| ensures TableOf(GroupAt(disk', g)) == v.tables[g] {
      SpliceElsewhere(disk, at, ToLe(t, 4), GroupPos(g), GroupPos(g) + GROUP);
      assert TableOf(GroupAt(disk, g)) == v.tables[g];
    }
    forall ino', k | ino' in v.files && 0 <= k < |v.files[ino']|
      ensures Pointer(InodeBytes(v, disk', ino'), k) == v.files[ino'][k]
    {
      StampedInode(v, disk, ino, f, t, ino');
      StampInBytes(InodeBytes(v, disk, ino), f, t);
      assert Pointer(InodeBytes(v, disk, ino'), k) == v.files[ino'][k];
    }
  }

  /** The bytes of every file survive a stamp update. */
  lemma StampKeepsBytes(v: Volume, disk: seq<byte>, ino: u32, f: Stamp, t: u32, other: u32)
    requires Holds(v, disk) && Numbered(v, ino) && other in v.files
    ensures var disk' := Splice(disk, Place(v, ino) + StampOffset(f), ToLe(t, 4));
      Holds(v, disk') && FileAt(v, disk', other).bytes == FileAt(v, disk, other).bytes
  {
    var disk' := Splice(disk, Place(v, ino) + StampOffset(f), ToLe(t, 4));
    StampKeepsLayout(v, disk, ino, f, t);
    PlaceInTable(v, ino);
    var n := FileLen(v, other);
    forall i | 0 <= i < n
      ensures Phys(InodeBytes(v, disk', other), i) == Phys(InodeBytes(v, disk, other), i)
      ensures At(disk', Phys(InodeBytes(v, disk, other), i)) == At(disk, Phys(InodeBytes(v, disk, other), i))
    {
      PhysIs(v, disk, other, i);
      PhysIs(v, disk', other, i);
      PhysOutside(v, disk, other, i, ino);
      hide Splice, Phys, Place, InodeBytes, ToLe;
      SpliceAt(disk, Place(v, ino) + StampOffset(f), ToLe(t, 4), Phys(InodeBytes(v, disk, other), i));
    }
    GatherSame(disk, disk', InodeBytes(v, disk, other), 0, n);
    GatherSameMap(disk', InodeBytes(v, disk, other), InodeBytes(v, disk', other), n);
  }

  lemma {:induction false} GatherSameMap(disk: seq<byte>, inode: seq<byte>, inode': seq<byte>, n: nat)
    requires |inode| == INODE && |inode'| == INODE && n <= MAX_FILE
    requires forall i :: 0 <= i < n ==> Phys(inode', i) == Phys(inode, i)
    ensures Gather(disk, inode', 0, n) == Gather(disk, inode, 0, n)
  {
    hide Phys;
    if n != 0 {
      GatherSameMap(disk, inode, inode', n - 1);
      assert Phys(inode', n - 1) == Phys(inode, n - 1);
    }
  }

  lemma StampedFile(v: Volume, disk: seq<byte>, ino: u32, f: Stamp, t: u32, other: u32)
    requires Holds(v, disk) && ino in v.files && other in v.files
    ensures var disk' := Splice(disk, Place(v, ino) + StampOffset(f), ToLe(t, 4));
      && Holds(v, disk')
      && FileAt(v, disk', other)
         == if other == ino then WithStamp(FileAt(v, disk, ino), f, t) else FileAt(v, disk, other)
  {
    StampKeepsBytes(v, disk, ino, f, t, other);
    hide Splice, Place, ToLe, InodeBytes, Gather;
    StampedInode(v, disk, ino, f, t, other);
    var inode := InodeBytes(v, disk, ino);
    StampInBytes(inode, f, t);
    var inode' := Splice(inode, StampOffset(f), ToLe(t, 4));
    assert forall f' :: StampOf(inode', f') == if f' == f then t else StampOf(inode, f');
    assert MapEnds(inode', |v.files[other]|) == MapEnds(inode, |v.files[other]|);
    hide StampOf;
  }

  /** A stamp update changes one field of one file. */
  lemma StampUpdates(v: Volume, disk: seq<byte>, ino: u32, f: Stamp, t: u32)
    requires Holds(v, disk) && ino in v.files
    ensures var disk' := Splice(disk, Place(v, ino) + StampOffset(f), ToLe(t, 4));
      && SameOutside(disk', disk, Place(v, ino) + StampOffset(f), Place(v, ino) + StampOffset(f) + 4)
      && Files(v, disk') == Some(Abs(v, disk)[ino := WithStamp(FileAt(v, disk, ino), f, t)])
  {
    SpliceOutside(disk, Place(v, ino) + StampOffset(f), ToLe(t, 4));
    StampedFiles(v, disk, ino, f, t);
  }

  lemma StampedFiles(v: Volume, disk: seq<byte>, ino: u32, f: Stamp, t: u32)
    requires Holds(v, disk) && ino in v.files
    ensures var disk' := Splice(disk, Place(v, ino) + StampOffset(f), ToLe(t, 4));
      Files(v, disk') == Some(Abs(v, disk)[ino := WithStamp(FileAt(v, disk, ino), f, t)])
  {
    var disk' := Splice(disk, Place(v, ino) + StampOffset(f), ToLe(t, 4));
    StampKeepsLayout(v, disk, ino, f, t);
    forall other | other in v.files && other != ino
      ensures FileAt(v, disk', other) == FileAt(v, disk, other)
    {
      StampedFile(v, disk, ino, f, t, other);
    }
    StampedFile(v, disk, ino, f, t, ino);
    AbsUpdate(v, disk, disk', ino, WithStamp(FileAt(v, disk, ino), f, t));
  }

  /** A read returns the file's bytes. */
  lemma ReadsSlice(v: Volume, disk: seq<byte>, ino: u32, off: nat, n: nat)
    requires Holds(v, disk) && ino in v.files && off + n <= FileLen(v, ino)
    ensures Gather(disk, InodeBytes(v, disk, ino), off, n) == FileAt(v, disk, ino).bytes[off..off + n]
  {
    hide Phys, InodeBytes, Gather;
    var inode := InodeBytes(v, disk, ino);
    forall i | 0 <= i < n
      ensures Gather(disk, inode, off, n)[i] == FileAt(v, disk, ino).bytes[off + i]
    {
      GatherAt(disk, inode, off, n, i);
      GatherAt(disk, inode, 0, FileLen(v, ino), off + i);
    }
  }

  lemma FilesOnDisk(v: Volume, disk: seq<byte>, ino: u32, off: nat, n: nat)
    requires Holds(v, disk) && ino in v.files && off + n <= FileLen(v, ino)
    ensures FileOnDisk(disk, InodeBytes(v, disk, ino), off, n)
  {
    forall i | off <= i < off + n ensures Phys(InodeBytes(v, disk, ino), i) < |disk| {
      PhysIs(v, disk, ino, i);
    }
  }

  /** The stored inode and the bounds of a file of the volume. */
  lemma FileFacts(v: Volume, disk: seq<byte>, files: map<u32, File>, ino: u32, off: nat, n: nat)
    requires Files(v, disk) == Some(files) && ino in files && off + n <= |files[ino].bytes|
    ensures v.sb.inodesPerGroup > 0 && GroupOnDisk(disk, v.sb, ino) && off + n <= MAX_FILE
    ensures var stored := InodeAt(disk, v.sb, ino);
      && stored.Some? && FileOnDisk(disk, stored.value, off, n)
      && Gather(disk, stored.value, off, n) == files[ino].bytes[off..off + n]
  {
    Located(v, disk, ino);
    FilesOnDisk(v, disk, ino, off, n);
    ReadsSlice(v, disk, ino, off, n);
  }

  lemma FileWritten(v: Volume, disk: seq<byte>, files: map<u32, File>, ino: u32, off: nat,
                    data: seq<byte>, inode: seq<byte>)
    requires Files(v, disk) == Some(files) && ino in files && off + |data| <= |files[ino].bytes|
    requires v.sb.inodesPerGroup > 0 && GroupOnDisk(disk, v.sb, ino) && off + |data| <= MAX_FILE
    requires InodeAt(disk, v.sb, ino) == Some(inode)
    ensures var f := files[ino];
      Files(v, Scatter(disk, inode, off, data))
      == Some(files[ino := f.(bytes := Splice(f.bytes, off, data))])
  {
    assert Abs(v, disk)[ino] == FileAt(v, disk, ino);
    Located(v, disk, ino);
    WriteSplices(v, disk, ino, off, data);
  }

  lemma FileStamped(v: Volume, disk: seq<byte>, files: map<u32, File>, ino: u32, f: Stamp, t: u32)
    requires Files(v, disk) == Some(files) && ino in files
    requires v.sb.inodesPerGroup > 0 && GroupOnDisk(disk, v.sb, ino)
    ensures Files(v, Splice(disk, InodePos(disk, v.sb, ino) + StampOffset(f), ToLe(t, 4)))
         == Some(files[ino := WithStamp(files[ino], f, t)])
  {
    hide Splice, InodeBytes, Gather, FileAt, Place, InodePos, InodeAt, WithStamp, ToLe;
    assert Abs(v, disk)[ino] == FileAt(v, disk, ino);
    Located(v, disk, ino);
    StampUpdates(v, disk, ino, f, t);
  }

  /** One group of two inodes with its table in block 3, and inode 2 with the one data block 4. */
  ghost function SampleVolume(): Volume {
    Volume(Superblock(2), [3], map[2 := [4]], 5120)
  }

  ghost function SampleDisk(): (disk: seq<byte>)
    ensures |disk| == 5120
  {
    var blank: seq<byte> := seq(5120, _ => 0);
    blank[2056 := 3][3368 := 4]
  }

  lemma SampleWellFormed()
    ensures var v := SampleVolume(); WellFormed(v) && Numbered(v, 2) && Place(v, 2) == 3328
  {
    var v := SampleVolume();
    assert TableStart(v, 0) == 3072 && TableEnd(v, 0) == 3584 && GroupsEnd(v) == 2080;
    assert GroupOf(v.sb, 2) == 0 && IndexInGroup(v.sb, 2) == 1;
    assert DataBlock(v, 4);
  }

  lemma SampleTable()
    ensures TableOf(SampleDisk()[2048..2080]) == 3
  {
    var disk := SampleDisk();
    WindowSlice(disk, 2048, GROUP, 8, 4);
    assert disk[2056..2060] == [3, 0, 0, 0];
    SmallField(3);
  }

  lemma SamplePointer()
    ensures Pointer(SampleDisk()[3328..3584], 0) == 4
  {
    var disk := SampleDisk();
    WindowSlice(disk, 3328, INODE, 40, 4);
    assert disk[3368..3372] == [4, 0, 0, 0];
    SmallField(4);
  }

  lemma SampleFields()
    ensures TableOf(SampleDisk()[2048..2080]) == 3
    ensures Pointer(SampleDisk()[3328..3584], 0) == 4
  {
    hide SampleDisk, TableOf, Pointer;
    SampleTable();
    SamplePointer();
  }

  lemma SampleHolds()
    ensures Holds(SampleVolume(), SampleDisk())
  {
    hide WellFormed, Place, SampleDisk, TableOf, Pointer, GroupOf;
    SampleWellFormed();
    SampleFields();
  }

  /** There are disks that record a volume with files. */
  lemma VolumeExists()
    ensures exists v: Volume, disk: seq<byte>, files: map<u32, File> ::
      Files(v, disk) == Some(files) && 2 in files && |files[2].bytes| == BLOCK
  {
    hide WellFormed, Place, SampleDisk, TableOf, Pointer, GroupOf, StampOf, Gather;
    var v, disk := SampleVolume(), SampleDisk();
    SampleHolds();
    assert Abs(v, disk)[2] == FileAt(v, disk, 2);
    assert Files(v, disk) == Some(Abs(v, disk));
  }

  lemma SmallField(b: byte)
    ensures FromLe([b, 0, 0, 0]) == b
  {
    assert [b, 0, 0, 0][1..] == [0, 0, 0] && [0, 0, 0][1..] == [0, 0] && [0, 0][1..] == [0];
    assert FromLe([0, 0]) == 0;
  }
}

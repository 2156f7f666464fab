/** The ext2 structures as they lie on the disk, and file bytes seen through an inode.

    Every structure is packed, so an inode, a group descriptor or a directory entry is the bytes
    that hold it; a field is read at its offset. */
module Ext2Disk {
  import opened Words
  import opened Bytes
  import opened Arithmetic
  import opened Virtio
  import opened Blk

  const BLOCK: nat := 1024
  const INODE: nat := 256
  const GROUP: nat := 32
  const FIRST_GROUP: nat := 2048
  const POINTERS: nat := 15
  const DIR_BLOCKS: nat := 13
  const MAX_FILE: nat := 15360

  /** The one field of the superblock that file access uses. */
  datatype Superblock = Superblock(inodesPerGroup: u32)

  /** The byte position of a block: the product is taken in 32 bits. */
  function BlockPos(b: u32): (p: nat)
    ensures p % BLOCK == 0 && p < TWO32
    ensures b < 0x40_0000 ==> p == b * BLOCK
  {
    Wrap32(b * BLOCK)
  }

  /** The 32-bit product is the true position exactly for the first 2^22 blocks. */
  lemma BlockPosExact(b: u32)
    ensures BlockPos(b) == b * BLOCK <==> b < 0x40_0000
  {
  }

  function GroupOf(sb: Superblock, ino: u32): (g: u32)
    requires sb.inodesPerGroup > 0
  {
    Wrap32(ino - 1) / sb.inodesPerGroup
  }

  function IndexInGroup(sb: Superblock, ino: u32): (i: u32)
    requires sb.inodesPerGroup > 0
  {
    Wrap32(ino - 1) % sb.inodesPerGroup
  }

  function GroupPos(g: nat): nat { FIRST_GROUP + GROUP * g }

  /** A group descriptor never straddles two sectors. */
  lemma GroupInOneSector(g: nat)
    ensures SectorOffset(GroupPos(g)) + GROUP <= SECTOR
  {
    Divide(16, g, g / 16, g % 16);
    assert GroupPos(g) == SECTOR * (4 + g / 16) + GROUP * (g % 16);
    Residue(SECTOR, 4 + g / 16, GROUP * (g % 16));
  }

  /** The block number of a group's inode table. */
  function TableOf(desc: seq<byte>): (b: u32)
    requires |desc| == GROUP
  {
    Pow256Values();
    Field(desc, 8, 4)
  }

  /** Where an inode lies, given the group descriptor that was read for it. */
  function PosInTable(desc: seq<byte>, sb: Superblock, ino: u32): u64
    requires |desc| == GROUP && sb.inodesPerGroup > 0
  {
    BlockPos(TableOf(desc)) + INODE * IndexInGroup(sb, ino)
  }

  /** An inode never straddles two sectors. */
  lemma InodeInOneSector(desc: seq<byte>, sb: Superblock, ino: u32)
    requires |desc| == GROUP && sb.inodesPerGroup > 0
    ensures PosInTable(desc, sb, ino) % INODE == 0
    ensures SectorOffset(PosInTable(desc, sb, ino)) + INODE <= SECTOR
  {
    hide BlockPos, TableOf, IndexInGroup, SectorOffset;
    var q := BlockPos(TableOf(desc)) / BLOCK;
    RecordAligned(4 * q + IndexInGroup(sb, ino));
  }

  lemma RecordAligned(m: nat)
    ensures INODE * m % INODE == 0 && SectorOffset(INODE * m) + INODE <= SECTOR
  {
    var h, b := m / 2, m % 2;
    Residue(INODE, m, 0);
    Residue(SECTOR, h, INODE * b);
    assert INODE * m == SECTOR * h + INODE * b;
  }

  ghost predicate GroupOnDisk(disk: seq<byte>, sb: Superblock, ino: u32)
    requires sb.inodesPerGroup > 0
  {
    GroupPos(GroupOf(sb, ino)) + GROUP <= |disk|
  }

  function GroupAt(disk: seq<byte>, g: nat): seq<byte>
    requires GroupPos(g) + GROUP <= |disk|
  {
    disk[GroupPos(g)..GroupPos(g) + GROUP]
  }

  function InodePos(disk: seq<byte>, sb: Superblock, ino: u32): u64
    requires sb.inodesPerGroup > 0 && GroupOnDisk(disk, sb, ino)
  {
    PosInTable(GroupAt(disk, GroupOf(sb, ino)), sb, ino)
  }

  /** The inode a flawless disk delivers, if its position lies on the disk. */
  ghost function InodeAt(disk: seq<byte>, sb: Superblock, ino: u32): (r: Option<seq<byte>>)
    requires sb.inodesPerGroup > 0 && GroupOnDisk(disk, sb, ino)
    ensures r.Some? ==> |r.value| == INODE
  {
    var p := InodePos(disk, sb, ino);
    if p + INODE <= |disk| then Some(disk[p..p + INODE]) else None
  }

  /** The inode of this number, at its place on the disk. */
  ghost predicate IsInode(disk: seq<byte>, sb: Superblock, ino: u32, inode: seq<byte>)
    requires sb.inodesPerGroup > 0
  {
    GroupOnDisk(disk, sb, ino) && InodeAt(disk, sb, ino) == Some(inode)
  }

  /** What a fetch delivers on a device that does not fail. Where the group descriptor lies past the
      disk, no read can deliver it, and the position follows from whatever the buffer held. */
  ghost function Fetched(disk: seq<byte>, sb: Superblock, ino: u32, held: seq<byte>)
    : (r: Option<seq<byte>>)
    requires sb.inodesPerGroup > 0 && |held| == GROUP
    ensures r.Some? ==> |r.value| == INODE
    ensures GroupOnDisk(disk, sb, ino) ==> r == InodeAt(disk, sb, ino)
  {
    var desc := if GroupOnDisk(disk, sb, ino) then GroupAt(disk, GroupOf(sb, ino)) else held;
    var p := PosInTable(desc, sb, ino);
    if p + INODE <= |disk| then Some(disk[p..p + INODE]) else None
  }

  /** Two group descriptors place an inode alike exactly when their table blocks agree in the 22
      bits that survive the product, whatever else they hold. */
  lemma PlacesAlike(desc: seq<byte>, desc': seq<byte>, sb: Superblock, ino: u32)
    requires |desc| == GROUP && |desc'| == GROUP && sb.inodesPerGroup > 0
    ensures PosInTable(desc, sb, ino) == PosInTable(desc', sb, ino)
      <==> TableOf(desc) % 0x40_0000 == TableOf(desc') % 0x40_0000
  {
    assert BlockPos(TableOf(desc)) == TableOf(desc) % 0x40_0000 * BLOCK;
    assert BlockPos(TableOf(desc')) == TableOf(desc') % 0x40_0000 * BLOCK;
  }

  /** The three time stamps of an inode. */
  datatype Stamp = ATime | CTime | MTime

  function StampOffset(f: Stamp): nat {
    match f
    case ATime => 8
    case CTime => 12
    case MTime => 16
  }

  function StampOf(inode: seq<byte>, f: Stamp): (t: u32)
    requires |inode| == INODE
  {
    Pow256Values();
    Field(inode, StampOffset(f), 4)
  }

  /** Entry `k` of the block map. All entries are used as direct blocks. */
  function Pointer(inode: seq<byte>, k: nat): (b: u32)
    requires |inode| == INODE && k < POINTERS
  {
    Pow256Values();
    Field(inode, 40 + 4 * k, 4)
  }

  /** A directory scan sees the first `n` blocks of the map and no more. */
  predicate MapEnds(inode: seq<byte>, n: nat)
    requires |inode| == INODE
  {
    n >= DIR_BLOCKS || Pointer(inode, n) == 0
  }

  /** The disk position of file byte `i`. */
  function Phys(inode: seq<byte>, i: nat): (p: nat)
    requires |inode| == INODE && i < MAX_FILE
    ensures p % BLOCK == i % BLOCK && p < TWO32 + BLOCK
  {
    BlockPos(Pointer(inode, i / BLOCK)) + i % BLOCK
  }

  // ----- packed structures

  /** 32-bit words, little-endian and end to end. */
  function Packed(words: seq<u32>): (r: seq<byte>)
    ensures |r| == 4 * |words|
  {
    if words == [] then [] else ToLe(words[0], 4) + Packed(words[1..])
  }

  lemma {:induction false} PackedAt(words: seq<u32>, k: nat)
    requires k < |words|
    ensures Packed(words)[4 * k..4 * k + 4] == ToLe(words[k], 4)
  {
    hide ToLe;
    if k == 0 {
      assert Packed(words)[..4] == ToLe(words[0], 4);
    } else {
      PackedAt(words[1..], k - 1);
      SliceBehind(ToLe(words[0], 4), Packed(words[1..]), 4 * (k - 1), 4);
    }
  }

  /** A slice of the second of two strings. */
  lemma SliceBehind(a: seq<byte>, b: seq<byte>, at: nat, n: nat)
    requires at + n <= |b|
    ensures (a + b)[|a| + at..|a| + at + n] == b[at..at + n]
  {
  }

  lemma SliceBefore(a: seq<byte>, b: seq<byte>, at: nat, n: nat)
    requires at + n <= |a|
    ensures (a + b)[at..at + n] == a[at..at + n]
  {
  }

  /** A word packed behind other bytes is read back at its place. */
  lemma WordIsRead(s: seq<byte>, before: seq<byte>, words: seq<u32>, behind: seq<byte>, off: nat, k: nat)
    requires s == before + Packed(words) + behind && k < |words| && off == |before| + 4 * k
    ensures off + 4 <= |s| && Field(s, off, 4) == words[k]
  {
    hide ToLe, FromLe, Packed, Field;
    PackedAt(words, k);
    WordInside(s, before, Packed(words), behind, off, 4 * k, words[k]);
  }

  lemma WordInside(s: seq<byte>, a: seq<byte>, b: seq<byte>, c: seq<byte>, off: nat, at: nat, w: u32)
    requires s == a + b + c && at + 4 <= |b| && off == |a| + at
    requires b[at..at + 4] == ToLe(w, 4)
    ensures off + 4 <= |s| && Field(s, off, 4) == w
  {
    hide ToLe, FromLe, Field;
    SliceInside(s, a, b, c, off, at, 4);
    WordField(s, off, w);
  }

  lemma WordField(s: seq<byte>, off: nat, w: u32)
    requires off + 4 <= |s| && s[off..off + 4] == ToLe(w, 4)
    ensures Field(s, off, 4) == w
  {
    hide FromLe, ToLe;
    WordRoundTrip(w);
  }

  lemma SliceInside(s: seq<byte>, a: seq<byte>, b: seq<byte>, c: seq<byte>, off: nat, at: nat, n: nat)
    requires s == a + b + c && at + n <= |b| && off == |a| + at
    ensures off + n <= |s| && s[off..off + n] == b[at..at + n]
  {
    SliceBehind(a, b, at, n);
    SliceBefore(a + b, c, off, n);
  }

  lemma WordRoundTrip(w: u32)
    ensures FromLe(ToLe(w, 4)) == w
  {
    hide FromLe, ToLe;
    Pow256Values();
    LeRoundTrip(w, 4);
  }

  /** An inode as it is packed: mode, owner and size in 8 bytes, the times of access, change and
      modification, 20 bytes of counts and flags, the fifteen entries of the block map, padding. */
  function InodeOf(head: seq<byte>, atime: u32, ctime: u32, mtime: u32, counts: seq<byte>,
                   blocks: seq<u32>, padding: seq<byte>): (inode: seq<byte>)
    requires |head| == 8 && |counts| == 20 && |blocks| == 15 && |padding| == 156
    ensures |inode| == 256
  {
    head + Packed([atime, ctime, mtime]) + counts + Packed(blocks) + padding
  }

  /** Every field of a packed inode is read back from its place. */
  lemma InodeIsRead(head: seq<byte>, atime: u32, ctime: u32, mtime: u32, counts: seq<byte>,
                    blocks: seq<u32>, padding: seq<byte>)
    requires |head| == 8 && |counts| == 20 && |blocks| == 15 && |padding| == 156
    ensures var inode := InodeOf(head, atime, ctime, mtime, counts, blocks, padding);
      && StampOf(inode, ATime) == atime && StampOf(inode, CTime) == ctime
      && StampOf(inode, MTime) == mtime
      && forall k :: 0 <= k < 15 ==> Pointer(inode, k) == blocks[k]
  {
    hide Packed, Field;
    var inode := InodeOf(head, atime, ctime, mtime, counts, blocks, padding);
    var times := [atime, ctime, mtime];
    var behind := counts + Packed(blocks) + padding;
    assert inode == head + Packed(times) + behind;
    WordIsRead(inode, head, times, behind, 8, 0);
    WordIsRead(inode, head, times, behind, 12, 1);
    WordIsRead(inode, head, times, behind, 16, 2);
    var before := head + Packed(times) + counts;
    assert inode == before + Packed(blocks) + padding;
    forall k | 0 <= k < 15 ensures Pointer(inode, k) == blocks[k] {
      WordIsRead(inode, before, blocks, padding, 40 + 4 * k, k);
    }
  }

  /** So file byte `i` lies in the block that entry `i / 1024` of the packed map names. */
  lemma PhysIsRead(head: seq<byte>, atime: u32, ctime: u32, mtime: u32, counts: seq<byte>,
                   blocks: seq<u32>, padding: seq<byte>, i: nat)
    requires |head| == 8 && |counts| == 20 && |blocks| == 15 && |padding| == 156 && i < 15 * 1024
    requires blocks[i / 1024] < 0x40_0000
    ensures Phys(InodeOf(head, atime, ctime, mtime, counts, blocks, padding), i)
         == blocks[i / 1024] * 1024 + i % 1024
  {
    hide InodeOf, Pointer;
    InodeIsRead(head, atime, ctime, mtime, counts, blocks, padding);
  }

  /** Strings end to end. */
  function EndToEnd(parts: seq<seq<byte>>): seq<byte> {
    if parts == [] then [] else parts[0] + EndToEnd(parts[1..])
  }

  lemma {:induction false} PartAt(parts: seq<seq<byte>>, g: nat)
    requires g < |parts| && forall k :: 0 <= k < |parts| ==> |parts[k]| == 32
    ensures |EndToEnd(parts)| == 32 * |parts|
    ensures EndToEnd(parts)[32 * g..32 * g + 32] == parts[g]
    decreases |parts|
  {
    var rest := parts[1..];
    if rest == [] {
      assert EndToEnd(parts) == parts[0];
    } else {
      PartAt(rest, if g > 0 then g - 1 else 0);
      if g > 0 {
        SliceBehind(parts[0], EndToEnd(rest), 32 * (g - 1), 32);
      } else {
        assert EndToEnd(parts)[..32] == parts[0];
      }
    }
  }

  /** The group descriptors lie end to end behind byte 2048: number `g` is the `g`-th of them. */
  lemma GroupIsRead(boot: seq<byte>, groups: seq<seq<byte>>, behind: seq<byte>, g: nat)
    requires |boot| == 2048 && g < |groups| && forall k :: 0 <= k < |groups| ==> |groups[k]| == 32
    ensures var disk := boot + EndToEnd(groups) + behind;
      GroupPos(g) + GROUP <= |disk| && GroupAt(disk, g) == groups[g]
  {
    hide EndToEnd;
    PartAt(groups, g);
    var disk := boot + EndToEnd(groups) + behind;
    SliceInside(disk, boot, EndToEnd(groups), behind, 2048 + 32 * g, 32 * g, 32);
  }

  /** A group descriptor packs the blocks of its two bitmaps and of its inode table, and 20 bytes. */
  lemma TableIsRead(blockBitmap: u32, inodeBitmap: u32, table: u32, counts: seq<byte>)
    requires |counts| == 20
    ensures TableOf(Packed([blockBitmap, inodeBitmap, table]) + counts) == table
  {
    hide Packed, Field;
    var words := [blockBitmap, inodeBitmap, table];
    assert [] + Packed(words) + counts == Packed(words) + counts;
    WordIsRead(Packed(words) + counts, [], words, counts, 8, 2);
  }

  /** Inode number 0, which marks an unused entry, wraps around: its group is the last that 32 bits
      can name, and its descriptor lies on the disk only if the disk reaches that far. */
  lemma UnusedPastDisk(disk: seq<byte>, sb: Superblock)
    requires sb.inodesPerGroup > 0
    ensures GroupOf(sb, 0) == 0xffff_ffff / sb.inodesPerGroup
    ensures GroupOnDisk(disk, sb, 0) <==> 2048 + 32 * (0xffff_ffff / sb.inodesPerGroup) + 32 <= |disk|
  {
  }

  function At(disk: seq<byte>, p: nat): byte {
    if p < |disk| then disk[p] else 0
  }

  function Put(disk: seq<byte>, p: nat, b: byte): (r: seq<byte>)
    ensures |r| == |disk|
  {
    if p < |disk| then disk[p := b] else disk
  }

  /** The `n` file bytes from `off`, one at a time. */
  ghost function Gather(disk: seq<byte>, inode: seq<byte>, off: nat, n: nat): (r: seq<byte>)
    requires |inode| == INODE && off + n <= MAX_FILE
    ensures |r| == n
  {
    if n == 0 then [] else
      Gather(disk, inode, off, n - 1) + [At(disk, Phys(inode, off + n - 1))]
  }

  /** File bytes written one at a time: what a write means, without blocks or sectors. */
  ghost function Scatter(disk: seq<byte>, inode: seq<byte>, off: nat, data: seq<byte>): (r: seq<byte>)
    requires |inode| == INODE && off + |data| <= MAX_FILE
    ensures |r| == |disk|
    decreases |data|
  {
    if data == [] then disk
    else
      var k := |data| - 1;
      Put(Scatter(disk, inode, off, data[..k]), Phys(inode, off + k), data[k])
  }

  lemma {:induction false} GatherAt(disk: seq<byte>, inode: seq<byte>, off: nat, n: nat, i: nat)
    requires |inode| == INODE && off + n <= MAX_FILE && i < n
    ensures Gather(disk, inode, off, n)[i] == At(disk, Phys(inode, off + i))
  {
    if i < n - 1 {
      GatherAt(disk, inode, off, n - 1, i);
    }
  }

  /** Writing `a` and then `b` behind it is writing `a + b`, wherever the cut falls. */
  lemma {:induction false} ScatterAppend(disk: seq<byte>, inode: seq<byte>, off: nat,
                                         a: seq<byte>, b: seq<byte>)
    requires |inode| == INODE && off + |a| + |b| <= MAX_FILE
    ensures Scatter(Scatter(disk, inode, off, a), inode, off + |a|, b)
         == Scatter(disk, inode, off, a + b)
    decreases |b|
  {
    hide Phys;
    if b == [] {
      assert a + b == a;
    } else {
      var k := |b| - 1;
      ScatterAppend(disk, inode, off, a, b[..k]);
      assert (a + b)[..|a| + k] == a + b[..k];
    }
  }

  lemma {:induction false} GatherAppend(disk: seq<byte>, inode: seq<byte>, off: nat, n: nat, m: nat)
    requires |inode| == INODE && off + n + m <= MAX_FILE
    ensures Gather(disk, inode, off, n) + Gather(disk, inode, off + n, m)
         == Gather(disk, inode, off, n + m)
  {
    if m != 0 {
      GatherAppend(disk, inode, off, n, m - 1);
    }
  }

  /** Inside one block a scatter is a splice of the flat disk. */
  lemma {:induction false} ScatterInBlock(disk: seq<byte>, inode: seq<byte>, off: nat, data: seq<byte>)
    requires |inode| == INODE && off + |data| <= MAX_FILE
    requires off % BLOCK + |data| <= BLOCK
    requires data != [] ==> Phys(inode, off) + |data| <= |disk|
    ensures data != [] ==>
      Scatter(disk, inode, off, data) == Splice(disk, Phys(inode, off), data)
    decreases |data|
  {
    hide Phys, Splice;
    if |data| == 1 {
      assert data == [data[0]] && data[..0] == [];
      SpliceOne(disk, Phys(inode, off), data[0]);
    } else if |data| > 1 {
      var k := |data| - 1;
      var p := Phys(inode, off);
      PhysInBlock(inode, off, k);
      ScatterInBlock(disk, inode, off, data[..k]);
      SpliceOne(Splice(disk, p, data[..k]), p + k, data[k]);
      SpliceAppend(disk, p, data[..k], [data[k]]);
      assert data == data[..k] + [data[k]];
    }
  }

  lemma SpliceOne(s: seq<byte>, p: nat, b: byte)
    requires p < |s|
    ensures Splice(s, p, [b]) == s[p := b]
  {
  }

  lemma {:induction false} GatherInBlock(disk: seq<byte>, inode: seq<byte>, off: nat, n: nat)
    requires |inode| == INODE && off + n <= MAX_FILE
    requires off % BLOCK + n <= BLOCK
    requires n > 0 ==> Phys(inode, off) + n <= |disk|
    ensures n > 0 ==> Gather(disk, inode, off, n) == disk[Phys(inode, off)..Phys(inode, off) + n]
  {
    hide Phys;
    if n > 0 {
      PhysInBlock(inode, off, n - 1);
      GatherInBlock(disk, inode, off, n - 1);
    }
  }

  lemma PhysInBlock(inode: seq<byte>, off: nat, k: nat)
    requires |inode| == INODE && off + k < MAX_FILE && off % BLOCK + k < BLOCK
    ensures Phys(inode, off + k) == Phys(inode, off) + k
  {
    assert (off + k) / BLOCK == off / BLOCK && (off + k) % BLOCK == off % BLOCK + k;
  }

  /** The disk sector that holds sector `fs` of the file. */
  function FileSector(inode: seq<byte>, fs: nat): nat
    requires |inode| == INODE && fs < MAX_FILE / SECTOR
  {
    BlockPos(Pointer(inode, fs / 2)) / SECTOR + fs % 2
  }

  /** Every disk sector under file bytes `[off, off + n)`, once each and in file order. */
  function FileSectors(inode: seq<byte>, off: nat, n: nat): (r: seq<nat>)
    requires |inode| == INODE && off + n <= MAX_FILE
    ensures |r| == Span(off, n)
  {
    seq<nat>(Span(off, n), k requires 0 <= k < Span(off, n) => FileSector(inode, off / SECTOR + k))
  }

  function FileReads(inode: seq<byte>, off: nat, n: nat): seq<Io>
    requires |inode| == INODE && off + n <= MAX_FILE
  {
    ReadsOf(FileSectors(inode, off, n))
  }

  function FileWrites(inode: seq<byte>, off: nat, n: nat): seq<Io>
    requires |inode| == INODE && off + n <= MAX_FILE
  {
    WritesOf(FileSectors(inode, off, n))
  }

  /** A range inside one block lies in the same sectors seen from the file and from the disk. */
  lemma FileSectorsInBlock(inode: seq<byte>, off: nat, n: nat)
    requires |inode| == INODE && off + n <= MAX_FILE && off % BLOCK + n <= BLOCK && 0 < n
    ensures FileSectors(inode, off, n) == Sectors(Phys(inode, off), n)
  {
    hide BlockPos, Pointer, Phys, FileSector;
    SpansAlike(inode, off, n);
    forall k | 0 <= k < Span(off, n)
      ensures FileSectors(inode, off, n)[k] == Sectors(Phys(inode, off), n)[k]
    {
      SectorAlike(inode, off, n, k);
    }
  }

  lemma SpansAlike(inode: seq<byte>, off: nat, n: nat)
    requires |inode| == INODE && off + n <= MAX_FILE && off % BLOCK + n <= BLOCK && 0 < n
    ensures Span(Phys(inode, off), n) == Span(off, n) == Span(off % BLOCK, n)
  {
    hide BlockPos, Pointer, Span;
    var q := BlockPos(Pointer(inode, off / BLOCK)) / BLOCK;
    BlockSectors(q, off / BLOCK, off % BLOCK, n);
  }

  lemma SectorAlike(inode: seq<byte>, off: nat, n: nat, k: nat)
    requires |inode| == INODE && off + n <= MAX_FILE && off % BLOCK + n <= BLOCK && 0 < n
    requires k < Span(off, n)
    ensures off / SECTOR + k < MAX_FILE / SECTOR
    ensures FileSector(inode, off / SECTOR + k) == Phys(inode, off) / SECTOR + k
  {
    hide BlockPos, Pointer, Span;
    var f := off / BLOCK;
    var q := BlockPos(Pointer(inode, f)) / BLOCK;
    BlockSectors(q, f, off % BLOCK, n);
    var x := off % BLOCK / SECTOR + k;
    assert off == BLOCK * f + off % BLOCK;
    assert off / SECTOR + k == 2 * f + x && x < 2;
    assert (2 * f + x) / 2 == f && (2 * f + x) % 2 == x;
  }

  /** Blocks are two sectors, so sectors are counted alike from the start of a file block `f` and
      from the start of a disk block `q`. */
  lemma BlockSectors(q: nat, f: nat, r: nat, n: nat)
    requires 0 < n && r + n <= BLOCK
    ensures (BLOCK * q + r) / SECTOR == 2 * q + r / SECTOR
    ensures (BLOCK * f + r) / SECTOR == 2 * f + r / SECTOR
    ensures Span(BLOCK * q + r, n) == Span(BLOCK * f + r, n) == Span(r, n)
    ensures r / SECTOR + Span(r, n) <= 2
  {
  }

  lemma FileSectorsAppend(inode: seq<byte>, off: nat, n: nat, m: nat)
    requires |inode| == INODE && off + n + m <= MAX_FILE && CutAt(off, n)
    ensures FileSectors(inode, off, n + m)
         == FileSectors(inode, off, n) + FileSectors(inode, off + n, m)
  {
    assert Span(off, n + m) == Span(off, n) + Span(off + n, m);
  }

  /** What is left of a range, or what is left of the block, whichever is smaller. */
  function BlockLen(pos: nat, left: nat): (m: nat)
    requires left > 0
    ensures 0 < m <= left && pos % BLOCK + m <= BLOCK
  {
    Min(BLOCK - pos % BLOCK, left)
  }

  /** Chunks cut a file range at block boundaries. */
  ghost predicate BlockCutAt(off: nat, n: nat) {
    n == 0 || (off + n) % BLOCK == 0
  }

  /** A complete file read, whatever the cut points: the bytes, and one request a sector. */
  ghost predicate FileReadDone(disk: seq<byte>, inode: seq<byte>, off: nat, n: nat,
                               out: seq<byte>, out': seq<byte>, trace: seq<Io>, trace': seq<Io>)
    requires |inode| == INODE && off + n <= MAX_FILE
  {
    && out' == Splice(out, 0, Gather(disk, inode, off, n))
    && trace' == trace + FileReads(inode, off, n)
  }

  /** A short file read that counts `n` bytes: `r` bytes did arrive, up to a sector boundary in
      the block where the next sector failed, and `n` is `r` rounded down to that block. */
  ghost predicate FileReadShort(disk: seq<byte>, inode: seq<byte>, off: nat, len: nat,
                                n: nat, r: nat,
                                out: seq<byte>, out': seq<byte>, trace: seq<Io>, trace': seq<Io>)
    requires |inode| == INODE && off + len <= MAX_FILE
  {
    && n <= r < len && BlockCutAt(off, n) && (off + n) / BLOCK == (off + r) / BLOCK
    && CutAt(off, r)
    && out' == Splice(out, 0, Gather(disk, inode, off, r))
    && trace' == trace + FileReads(inode, off, r)
         + [Io(ReadOp, FileSector(inode, (off + r) / SECTOR), false)]
  }

  /** A complete file write: one scatter, each sector read and written once. */
  ghost predicate FileWriteDone(disk: seq<byte>, disk': seq<byte>, inode: seq<byte>, off: nat,
                                data: seq<byte>, trace: seq<Io>, trace': seq<Io>)
    requires |inode| == INODE && off + |data| <= MAX_FILE
  {
    && disk' == Scatter(disk, inode, off, data)
    && trace' == trace + FileWrites(inode, off, |data|)
  }

  /** A short file write that counts `n` bytes: `r` bytes are in place, and beyond them only the
      one sector that failed may differ. */
  ghost predicate FileWriteShort(disk: seq<byte>, disk': seq<byte>, inode: seq<byte>, off: nat,
                                 data: seq<byte>, n: nat, r: nat, trace: seq<Io>, trace': seq<Io>)
    requires |inode| == INODE && off + |data| <= MAX_FILE
  {
    && n <= r < |data| && BlockCutAt(off, n) && (off + n) / BLOCK == (off + r) / BLOCK
    && CutAt(off, r)
    && var bad := FileSector(inode, (off + r) / SECTOR);
    && SameOutside(disk', Scatter(disk, inode, off, data[..r]), bad * SECTOR, bad * SECTOR + SECTOR)
    && (|| trace' == trace + FileWrites(inode, off, r) + [Io(ReadOp, bad, false)]
        || trace' == trace + FileWrites(inode, off, r) + [Io(ReadOp, bad, true), Io(WriteOp, bad, false)])
  }

  /** A chunk that leaves something over ends at a block boundary. */
  lemma BlockCut(off: nat, n: nat, left: nat)
    requires left > 0 && BlockLen(off + n, left) < left
    ensures BlockCutAt(off, n + BlockLen(off + n, left))
  {
  }

  lemma BlockCutIsCut(off: nat, n: nat)
    requires BlockCutAt(off, n)
    ensures CutAt(off, n)
  {
  }

  /** Part of a chunk, up to a sector cut, stays in the chunk's block. */
  lemma ChunkSectors(inode: seq<byte>, off: nat, n: nat, left: nat, r: nat)
    requires |inode| == INODE && off + n + left <= MAX_FILE && left > 0
    requires BlockCutAt(off, n) && r <= BlockLen(off + n, left)
    ensures FileSectors(inode, off, n + r)
         == FileSectors(inode, off, n) + Sectors(Phys(inode, off + n), r)
  {
    BlockCutIsCut(off, n);
    FileSectorsAppend(inode, off, n, r);
    if r > 0 {
      FileSectorsInBlock(inode, off + n, r);
    } else {
      assert FileSectors(inode, off + n, 0) == [] == Sectors(Phys(inode, off + n), 0);
    }
  }

  /** The sector that fails in a chunk, seen from the file. */
  lemma FailingSector(inode: seq<byte>, off: nat, n: nat, left: nat, r: nat)
    requires |inode| == INODE && off + n + left <= MAX_FILE && left > 0
    requires r < BlockLen(off + n, left) && CutAt(Phys(inode, off + n), r) && BlockCutAt(off, n)
    ensures CutAt(off, n + r) && (off + n) / BLOCK == (off + n + r) / BLOCK
    ensures SectorOf(Phys(inode, off + n) + r) == FileSector(inode, (off + n + r) / SECTOR)
  {
    hide BlockPos, Pointer;
    var f := (off + n) / BLOCK;
    var q := BlockPos(Pointer(inode, f)) / BLOCK;
    var x := (off + n) % BLOCK + r;
    assert off + n + r == BLOCK * f + x && Phys(inode, off + n) + r == BLOCK * q + x;
    BlockSectors(q, f, x, 1);
    assert (off + n + r) / SECTOR == 2 * f + x / SECTOR;
    BlockResidue(q, x);
    BlockResidue(f, x);
  }

  lemma BlockResidue(q: nat, x: nat)
    ensures (BLOCK * q + x) % SECTOR == x % SECTOR
  {
  }

  /** The bytes of a chunk, gathered through the inode. */
  lemma GatherChunk(disk: seq<byte>, inode: seq<byte>, off: nat, n: nat, left: nat, r: nat)
    requires |inode| == INODE && off + n + left <= MAX_FILE && left > 0
    requires r <= BlockLen(off + n, left) && (r > 0 ==> Phys(inode, off + n) + r <= |disk|)
    ensures Gather(disk, inode, off, n + r)
         == Gather(disk, inode, off, n) + Slice(disk, Phys(inode, off + n), r)
  {
    hide Phys, Gather;
    GatherAppend(disk, inode, off, n, r);
    GatherInBlock(disk, inode, off + n, r);
    assert Gather(disk, inode, off + n, r) == Slice(disk, Phys(inode, off + n), r);
  }

  /** The bytes of a chunk, scattered through the inode. */
  lemma ScatterChunk(disk: seq<byte>, inode: seq<byte>, off: nat, done: seq<byte>, left: nat,
                     piece: seq<byte>)
    requires |inode| == INODE && off + |done| + left <= MAX_FILE && left > 0
    requires |piece| <= BlockLen(off + |done|, left)
    requires piece != [] ==> Phys(inode, off + |done|) + |piece| <= |disk|
    ensures Scatter(disk, inode, off, done + piece)
         == Splice(Scatter(disk, inode, off, done), Phys(inode, off + |done|), piece)
  {
    hide Phys, Scatter, Splice;
    ScatterAppend(disk, inode, off, done, piece);
    if piece == [] {
      SpliceNothing(Scatter(disk, inode, off, done), Phys(inode, off + |done|));
      assert done + piece == done;
    } else {
      ScatterInBlock(Scatter(disk, inode, off, done), inode, off + |done|, piece);
    }
  }

  /** Every byte of the range has its place on the disk. */
  ghost predicate FileOnDisk(disk: seq<byte>, inode: seq<byte>, off: nat, len: nat)
    requires |inode| == INODE && off + len <= MAX_FILE
  {
    forall i :: off <= i < off + len ==> Phys(inode, i) < |disk|
  }

  lemma ChunkOnDisk(disk: seq<byte>, inode: seq<byte>, off: nat, len: nat, n: nat)
    requires |inode| == INODE && off + len <= MAX_FILE && n < len
    ensures FileOnDisk(disk, inode, off, len) ==>
      Phys(inode, off + n) + BlockLen(off + n, len - n) <= |disk|
  {
    hide Phys;
    var m := BlockLen(off + n, len - n);
    PhysInBlock(inode, off + n, m - 1);
    assert FileOnDisk(disk, inode, off, len) ==> Phys(inode, off + n + (m - 1)) < |disk|;
  }
}

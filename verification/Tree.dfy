/** Directories as files: what a directory lists and what a path names follow from the bytes of the
    files alone. */
module Trees {
  import opened Words
  import opened Bytes
  import opened Virtio
  import opened Blk
  import opened Ext2Disk
  import opened Volumes
  import opened Directories
  import opened Paths
  import Faults

  function BlockOf(bytes: seq<byte>, o: nat): (block: seq<byte>)
    requires BLOCK * o + BLOCK <= |bytes|
    ensures |block| == BLOCK
  {
    bytes[BLOCK * o..BLOCK * o + BLOCK]
  }

  /** From block `o` on, entries tile every block of the file that a directory scan visits. */
  predicate BytesTiled(bytes: seq<byte>, o: nat)
    decreases DIR_BLOCKS - o
  {
    o >= DIR_BLOCKS || BLOCK * o + BLOCK > |bytes| ||
    (Tiled(BlockOf(bytes, o), 0) && BytesTiled(bytes, o + 1))
  }

  /** The entries of a directory, read off its bytes. */
  function Entries(bytes: seq<byte>, o: nat): seq<Dirent>
    requires BytesTiled(bytes, o)
    decreases DIR_BLOCKS - o
  {
    if o >= DIR_BLOCKS || BLOCK * o + BLOCK > |bytes| then []
    else Listing(BlockOf(bytes, o), 0) + Entries(bytes, o + 1)
  }

  /** Block `p` of 1024 bytes lists `e`. */
  predicate FileBlockLists(bytes: seq<byte>, p: nat, e: Dirent) {
    && 1024 * p + 1024 <= |bytes|
    && Tiled(bytes[1024 * p..1024 * p + 1024], 0)
    && e in Listing(bytes[1024 * p..1024 * p + 1024], 0)
  }

  /** The entries are exactly those of the first thirteen blocks. */
  lemma {:induction false} EntriesExactly(bytes: seq<byte>, o: nat, e: Dirent)
    requires BytesTiled(bytes, o)
    ensures e in Entries(bytes, o) <==> exists p :: o <= p < 13 && FileBlockLists(bytes, p, e)
    decreases 13 - o
  {
    hide Tiled, Listing;
    if o < 13 && 1024 * o + 1024 <= |bytes| {
      EntriesExactly(bytes, o + 1, e);
      if FileBlockLists(bytes, o, e) {
        assert e in Entries(bytes, o);
      }
    }
  }

  /** The file can be scanned as a directory. */
  predicate Listable(f: File) {
    f.closed && BytesTiled(f.bytes, 0)
  }

  /** A block of a file as the disk holds it. */
  lemma BlockOnDisk(v: Volume, disk: seq<byte>, d: u32, o: nat)
    requires Holds(v, disk) && d in v.files && o < |v.files[d]|
    ensures var b := Pointer(InodeBytes(v, disk, d), o);
      && b != 0 && BlockPos(b) + BLOCK <= |disk|
      && BLOCK * o + BLOCK <= FileLen(v, d)
      && BlockAt(disk, b) == BlockOf(FileAt(v, disk, d).bytes, o)
  {
    hide InodeBytes, Gather, StampOf, Pointer;
    var inode := InodeBytes(v, disk, d);
    var i := BLOCK * o;
    assert i / BLOCK == o && i % BLOCK == 0;
    assert DataBlock(v, v.files[d][o]) && Pointer(inode, o) == v.files[d][o];
    ReadsSlice(v, disk, d, i, BLOCK);
    GatherInBlock(disk, inode, i, BLOCK);
  }

  /** The scan of a closed directory lists what its bytes list. */
  lemma {:induction false} ListingIsEntries(v: Volume, disk: seq<byte>, d: u32, inode: seq<byte>,
                                            bytes: seq<byte>, o: nat)
    requires Holds(v, disk) && d in v.files && o <= |v.files[d]|
    requires inode == InodeBytes(v, disk, d) && MapEnds(inode, |v.files[d]|)
    requires bytes == FileAt(v, disk, d).bytes && |bytes| == BLOCK * |v.files[d]|
    requires BytesTiled(bytes, o)
    ensures Scannable(disk, inode, o) && DirListing(disk, inode, o) == Entries(bytes, o)
    decreases DIR_BLOCKS - o
  {
    hide Holds, InodeBytes, Pointer, Tiled, Listing, BlockAt, BlockOf, BlockPos, FileAt;
    if o < DIR_BLOCKS && o < |v.files[d]| {
      BlockOnDisk(v, disk, d, o);
      ListingIsEntries(v, disk, d, inode, bytes, o + 1);
    }
  }

  /** Every directory on the way from `d` can be scanned. The last accepted entry may name
      anything. */
  predicate Enterable(files: map<u32, File>, d: u32, cs: seq<seq<byte>>)
    decreases |cs|
  {
    cs == [] ||
    (d in files && Listable(files[d]) &&
     var e := Find(Entries(files[d].bytes, 0), cs[0]);
     e.Some? ==> Enterable(files, e.value.ino, cs[1..]))
  }

  /** The number that a path names from directory `d`: that of the last accepted entry, or `ino0`. */
  function Named(files: map<u32, File>, d: u32, cs: seq<seq<byte>>, ino0: u32): u32
    requires Enterable(files, d, cs)
    decreases |cs|
  {
    if cs == [] then ino0
    else
      var e := Find(Entries(files[d].bytes, 0), cs[0]);
      if e.None? then ino0 else Named(files, e.value.ino, cs[1..], e.value.ino)
  }

  /** A directory of the volume lists what its file says. */
  lemma DirectoryMeans(v: Volume, disk: seq<byte>, files: map<u32, File>, d: u32)
    requires Files(v, disk) == Some(files) && d in files && Listable(files[d])
    ensures WellFormed(v) && |disk| == v.size && Numbered(v, d)
    ensures var inode := InodeBytes(v, disk, d);
      Scannable(disk, inode, 0) && DirListing(disk, inode, 0) == Entries(files[d].bytes, 0)
  {
    assert Abs(v, disk)[d] == FileAt(v, disk, d);
    hide Holds, InodeBytes, Entries, DirListing, Scannable, BytesTiled, Gather, StampOf, MapEnds;
    ListingIsEntries(v, disk, d, InodeBytes(v, disk, d), files[d].bytes, 0);
  }

  /** What a step from `cur` delivers, whatever the buffer held. */
  ghost predicate StepDelivers(v: Volume, disk: seq<byte>, files: map<u32, File>, cur: Found,
                            s: seq<byte>, e: Option<Dirent>, held: seq<byte>)
    requires v.sb.inodesPerGroup > 0 && WellFormed(v) && |disk| == v.size
    requires |cur.inode| == INODE && |held| == GROUP
  {
    && Scannable(disk, cur.inode, 0) && Find(DirListing(disk, cur.inode, 0), s) == e
    && var next := Lookup(disk, v.sb, cur.inode, s, held, cur.ino, cur.inode);
    && (e.None? ==> next == Found(false, cur.ino, cur.inode))
    && (e.Some? ==> next.ino == e.value.ino)
    && (e.Some? && e.value.ino in files ==>
          Numbered(v, e.value.ino) && GroupOnDisk(disk, v.sb, e.value.ino)
          && next == Found(true, e.value.ino, InodeBytes(v, disk, e.value.ino)))
  }

  lemma LookupMeans(v: Volume, disk: seq<byte>, files: map<u32, File>, d: u32, s: seq<byte>,
                    held: seq<byte>, ino0: u32)
    requires Files(v, disk) == Some(files) && d in files && Listable(files[d]) && |held| == GROUP
    ensures v.sb.inodesPerGroup > 0 && WellFormed(v) && |disk| == v.size && Numbered(v, d)
    ensures StepDelivers(v, disk, files, Found(true, ino0, InodeBytes(v, disk, d)), s,
                      Find(Entries(files[d].bytes, 0), s), held)
  {
    hide Files, InodeBytes, GroupOf, Entries, DirListing, Scannable, Find, InodeAt, GroupOnDisk;
    hide WellFormed, BytesTiled, Place, InodePos;
    DirectoryMeans(v, disk, files, d);
    var e := Find(Entries(files[d].bytes, 0), s);
    if e.Some? && e.value.ino in files {
      Faults.StoredInode(v, disk, files, e.value.ino);
    }
  }

  /** From a directory of the volume, resolution can walk the path, what the buffers hold plays no
      part before the last component, and the number it ends with is the one the files give. */
  lemma {:induction false} WalkMeans(v: Volume, disk: seq<byte>, files: map<u32, File>, d: u32,
                                     cs: seq<seq<byte>>, ino0: u32)
    requires Files(v, disk) == Some(files) && d in files && Enterable(files, d, cs)
    ensures v.sb.inodesPerGroup > 0 && Numbered(v, d) && WellFormed(v) && |disk| == v.size
    ensures var cur := Found(true, ino0, InodeBytes(v, disk, d));
      && Walkable(disk, v.sb, cur, cs) && (cs != [] ==> Settled(disk, v.sb, cur, cs, |cs| - 1))
      && forall helds :: Buffers(helds, |cs|) ==>
           Resolve(disk, v.sb, cur, cs, helds).ino == Named(files, d, cs, ino0)
    decreases |cs|
  {
    hide Files, InodeBytes, GroupOf, WellFormed, Listable, Lookup, Settled, Walkable, Resolve;
    hide Find, Entries, DirListing, Scannable, InodeAt, GroupOnDisk, Place, InodePos;
    Faults.StoredInode(v, disk, files, d);
    WellFormedVolume(v, disk, files);
    var cur := Found(true, ino0, InodeBytes(v, disk, d));
    if cs == [] {
      NothingToWalk(disk, v.sb, cur);
    } else {
      var e := NextEntry(files, d, cs);
      forall held: seq<byte> | |held| == GROUP
        ensures StepDelivers(v, disk, files, cur, cs[0], e, held)
      {
        LookupMeans(v, disk, files, d, cs[0], held, ino0);
      }
      if e.Some? && |cs| > 1 {
        WalkMeans(v, disk, files, e.value.ino, cs[1..], e.value.ino);
      }
      OneStep(v, disk, files, d, cs, cur, e);
    }
  }

  lemma WellFormedVolume(v: Volume, disk: seq<byte>, files: map<u32, File>)
    requires Files(v, disk) == Some(files)
    ensures WellFormed(v) && |disk| == v.size
  {
  }

  /** The entry that the first component of a walkable path is looked up as. */
  function NextEntry(files: map<u32, File>, d: u32, cs: seq<seq<byte>>): (e: Option<Dirent>)
    requires Enterable(files, d, cs) && cs != []
    ensures e.Some? ==> Enterable(files, e.value.ino, cs[1..])
    ensures forall ino0: u32 ::
      Named(files, d, cs, ino0)
      == if e.None? then ino0 else Named(files, e.value.ino, cs[1..], e.value.ino)
  {
    Find(Entries(files[d].bytes, 0), cs[0])
  }

  lemma NothingToWalk(disk: seq<byte>, sb: Superblock, cur: Found)
    requires sb.inodesPerGroup > 0 && |cur.inode| == INODE
    ensures Walkable(disk, sb, cur, [])
    ensures forall n: nat :: Settled(disk, sb, cur, [], n)
    ensures forall helds :: Buffers(helds, 0) ==> Resolve(disk, sb, cur, [], helds) == cur
  {
  }

  lemma OneStep(v: Volume, disk: seq<byte>, files: map<u32, File>, d: u32, cs: seq<seq<byte>>,
                cur: Found, e: Option<Dirent>)
    requires v.sb.inodesPerGroup > 0 && WellFormed(v) && |disk| == v.size && |cur.inode| == INODE
    requires Enterable(files, d, cs) && cs != [] && e == NextEntry(files, d, cs)
    requires forall held: seq<byte> :: |held| == GROUP ==> StepDelivers(v, disk, files, cur, cs[0], e, held)
    requires e.Some? && |cs| > 1 ==>
      && e.value.ino in files && Numbered(v, e.value.ino)
      && var next := Found(true, e.value.ino, InodeBytes(v, disk, e.value.ino));
      && Walkable(disk, v.sb, next, cs[1..]) && Settled(disk, v.sb, next, cs[1..], |cs| - 2)
      && forall helds :: Buffers(helds, |cs| - 1) ==>
           Resolve(disk, v.sb, next, cs[1..], helds).ino
           == Named(files, e.value.ino, cs[1..], e.value.ino)
    ensures Walkable(disk, v.sb, cur, cs) && Settled(disk, v.sb, cur, cs, |cs| - 1)
    ensures forall helds :: Buffers(helds, |cs|) ==>
      Resolve(disk, v.sb, cur, cs, helds).ino == Named(files, d, cs, cur.ino)
  {
    hide InodeBytes, GroupOf, WellFormed, Lookup, Scannable, DirListing, Find, GroupOnDisk, NextEntry, Enterable;
    assert StepDelivers(v, disk, files, cur, cs[0], e, Blank(1)[0]);
    if |cs| == 1 {
      assert cs[1..] == [];
    }
    forall helds | Buffers(helds, |cs|)
      ensures Resolve(disk, v.sb, cur, cs, helds).ino == Named(files, d, cs, cur.ino)
    {
      assert StepDelivers(v, disk, files, cur, cs[0], e, helds[0]);
      assert Buffers(helds[1..], |cs| - 1);
    }
  }

  /** A path means to the resolvers what it means to the files: they can follow it, and the number
      they report is the one that the bytes of the directories name, whatever the buffers hold. */
  lemma PathMeans(v: Volume, disk: seq<byte>, files: map<u32, File>, cs: seq<seq<byte>>, ino0: u32,
                  inode0: seq<byte>, helds: seq<seq<byte>>)
    requires Files(v, disk) == Some(files) && Enterable(files, ROOT, cs)
    requires |inode0| == INODE && Buffers(helds, |cs| + 1)
    ensures Resolvable(disk, v.sb, cs)
    ensures cs != [] ==> SettledFromRoot(disk, v.sb, cs, |cs| - 1)
    ensures FromRoot(disk, v.sb, cs, ino0, inode0, helds).ino == Named(files, ROOT, cs, ino0)
  {
    hide Files, InodeBytes, GroupOf, WellFormed, Listable, Settled, Walkable, Resolve;
    hide Find, Entries, DirListing, InodeAt, GroupOnDisk, Place, InodePos;
    SomeVolume(v, disk, files);
    if cs == [] {
      forall root: seq<byte>, n: u32 | |root| == INODE
        ensures Walkable(disk, v.sb, Found(true, n, root), [])
        ensures forall rest :: Buffers(rest, 0) ==>
          Resolve(disk, v.sb, Found(true, n, root), [], rest) == Found(true, n, root)
      {
        NothingToWalk(disk, v.sb, Found(true, n, root));
      }
    } else {
      Faults.StoredInode(v, disk, files, ROOT);
      WellFormedVolume(v, disk, files);
      WalkMeans(v, disk, files, ROOT, cs, 0);
      WalkMeans(v, disk, files, ROOT, cs, ino0);
    }
  }

  lemma SomeVolume(v: Volume, disk: seq<byte>, files: map<u32, File>)
    requires Files(v, disk) == Some(files)
    ensures v.sb.inodesPerGroup > 0
  {
  }

  lemma DirectoryHolds()
    ensures Holds(SampleVolume(), DirectoryDisk())
    ensures InodeBytes(SampleVolume(), DirectoryDisk(), 2) == SampleDisk()[3328..3584]
  {
    hide WellFormed, Place, SampleDisk, SampleBlock, TableOf, Pointer, GroupOf;
    SampleWellFormed();
    SampleFields();
    assert GroupAt(DirectoryDisk(), 0) == SampleDisk()[2048..2080];
    assert DirectoryDisk()[3328..3584] == SampleDisk()[3328..3584];
  }

  /** On a disk that records a volume, with an unused entry in its root directory, the path "/a" names
      inode 1. */
  lemma NamedExample()
    ensures var v, disk := SampleVolume(), DirectoryDisk();
      && Files(v, disk).Some?
      && Enterable(Files(v, disk).value, ROOT, [[97]])
      && Named(Files(v, disk).value, ROOT, [[97]], 0) == 1
  {
    hide DirectoryDisk, SampleVolume, Files, BytesTiled, Entries, Find;
    DirectoryFile();
    EntryFound();
    assert |[[97]][1..]| == 0;
    var files := Files(SampleVolume(), DirectoryDisk()).value;
    assert Find(Entries(files[2].bytes, 0), [[97]][0]) == Some(Dirent(1, [97]));
    assert Enterable(files, 1, []) && Named(files, 1, [], 1) == 1;
  }

  lemma DirectoryFile()
    ensures var v, disk := SampleVolume(), DirectoryDisk();
      && Files(v, disk).Some? && 2 in Files(v, disk).value
      && var f := Files(v, disk).value[2];
      Listable(f) && Entries(f.bytes, 0) == [Dirent(0, [98]), Dirent(1, [97])]
  {
    hide SampleDisk, SampleBlock, DirectoryDisk, Tiled, Listing, Pointer, InodeBytes, Holds;
    hide StampOf, Gather, Listable, Entries;
    var v, disk := SampleVolume(), DirectoryDisk();
    DirectoryHolds();
    RootPointers();
    SampleListing();
    BlockOnDisk(v, disk, 2, 0);
    DirectoryBlock();
    RootLists(FileAt(v, disk, 2), SampleBlock());
    assert Abs(v, disk)[2] == FileAt(v, disk, 2);
  }

  lemma DirectoryBlock()
    ensures BlockPos(4) + BLOCK <= |DirectoryDisk()| && BlockAt(DirectoryDisk(), 4) == SampleBlock()
  {
    hide SampleDisk, SampleBlock;
    assert DirectoryDisk()[4096..5120] == SampleBlock();
  }

  /** A file of one block lists what that block lists. */
  lemma RootLists(f: File, block: seq<byte>)
    requires |f.bytes| == BLOCK == |block| && BlockOf(f.bytes, 0) == block && f.closed
    requires Tiled(block, 0)
    ensures Listable(f) && Entries(f.bytes, 0) == Listing(block, 0)
  {
    hide Tiled, Listing;
    assert BytesTiled(f.bytes, 1) && Entries(f.bytes, 1) == [];
  }

  lemma EntryFound()
    ensures Find([Dirent(0, [98]), Dirent(1, [97])], [97]) == Some(Dirent(1, [97]))
  {
    var es := [Dirent(0, [98]), Dirent(1, [97])];
    assert es[1..] == [Dirent(1, [97])];
    assert StrncmpEqual([97], [97]) by { assert |[97][1..]| == 0; }
  }
}

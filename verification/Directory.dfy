/** Directory blocks: a pure listing, and the scan that looks a name up while it copies every entry
    over the front of the block it is scanning. */
module Directories {
  import opened Words
  import opened Bytes
  import opened Virtio
  import opened Blk
  import opened Ext2Disk
  import Ext2

  const HEAD: nat := 8

  datatype Dirent = Dirent(ino: u32, name: seq<byte>)

  function RecLen(block: seq<byte>, idx: nat): u16
    requires idx + HEAD <= |block|
  {
    Pow256Values();
    Field(block, idx + 4, 2)
  }

  function EntryIno(block: seq<byte>, idx: nat): u32
    requires idx + HEAD <= |block|
  {
    Pow256Values();
    Field(block, idx, 4)
  }

  /** From `idx` on, entries tile the block, and each holds its name. */
  predicate Tiled(block: seq<byte>, idx: nat)
    decreases |block| - idx
  {
    idx == |block| ||
    (&& idx + HEAD <= |block|
     && HEAD + block[idx + 6] <= RecLen(block, idx)
     && idx + RecLen(block, idx) <= |block|
     && Tiled(block, idx + RecLen(block, idx)))
  }

  function EntryAt(block: seq<byte>, idx: nat): Dirent
    requires idx + HEAD <= |block| && idx + HEAD + block[idx + 6] <= |block|
  {
    Dirent(EntryIno(block, idx), block[idx + HEAD..idx + HEAD + block[idx + 6]])
  }

  /** The entries from `idx` on, in order. */
  function Listing(block: seq<byte>, idx: nat): seq<Dirent>
    requires Tiled(block, idx)
    decreases |block| - idx
  {
    if idx == |block| then []
    else [EntryAt(block, idx)] + Listing(block, idx + RecLen(block, idx))
  }

  /** An entry as it is stored: number, length, name length, file type, name and padding. */
  function Stored(e: Dirent, recLen: u16, fileType: byte): (r: seq<byte>)
    requires |e.name| < 256 && HEAD + |e.name| <= recLen
    ensures |r| == recLen
  {
    ToLe(e.ino, 4) + ToLe(recLen, 2) + [|e.name|, fileType] + e.name
      + seq(recLen - HEAD - |e.name|, _ => 0)
  }

  /** Where a stored entry lies in a block, the listing reads that entry and its length. */
  lemma StoredIsRead(before: seq<byte>, e: Dirent, recLen: u16, fileType: byte, behind: seq<byte>)
    requires |e.name| < 256 && HEAD + |e.name| <= recLen
    ensures var block := before + Stored(e, recLen, fileType) + behind;
      var idx := |before|;
      && idx + HEAD <= |block| && RecLen(block, idx) == recLen
      && idx + HEAD + block[idx + 6] <= |block| && EntryAt(block, idx) == e
  {
    var block := before + Stored(e, recLen, fileType) + behind;
    var idx := |before|;
    Pow256Values();
    LeRoundTrip(e.ino, 4);
    LeRoundTrip(recLen, 2);
    hide FromLe, ToLe;
    assert block[idx..idx + 4] == ToLe(e.ino, 4);
    assert block[idx + 4..idx + 6] == ToLe(recLen, 2);
    assert block[idx + 6] == |e.name|;
    assert block[idx + HEAD..idx + HEAD + |e.name|] == e.name;
  }

  /** An entry with the length and the file type it is stored with. */
  datatype Record = Record(entry: Dirent, recLen: u16, fileType: byte)

  predicate Fits(r: Record) {
    |r.entry.name| < 256 && HEAD + |r.entry.name| <= r.recLen
  }

  /** Entries stored one behind the other. */
  function StoredAll(rs: seq<Record>): seq<byte>
    requires forall r :: r in rs ==> Fits(r)
  {
    if rs == [] then []
    else
      assert Fits(rs[0]) by { assert rs[0] in rs; }
      Stored(rs[0].entry, rs[0].recLen, rs[0].fileType) + StoredAll(rs[1..])
  }

  function EntriesOf(rs: seq<Record>): (es: seq<Dirent>)
    ensures |es| == |rs|
  {
    if rs == [] then [] else [rs[0].entry] + EntriesOf(rs[1..])
  }

  /** Any entries stored one behind the other tile their block, and its listing is those entries in
      that order. */
  lemma {:induction false} ListingOfStored(before: seq<byte>, rs: seq<Record>)
    requires forall r :: r in rs ==> Fits(r)
    ensures var block := before + StoredAll(rs);
      Tiled(block, |before|) && Listing(block, |before|) == EntriesOf(rs)
    decreases |rs|
  {
    hide Stored, RecLen, EntryIno;
    var block := before + StoredAll(rs);
    if rs != [] {
      var r, rest := rs[0], rs[1..];
      assert r in rs;
      var first := Stored(r.entry, r.recLen, r.fileType);
      StoredIsRead(before, r.entry, r.recLen, r.fileType, StoredAll(rest));
      assert block == before + first + StoredAll(rest);
      ListingOfStored(before + first, rest);
      ListedFirst(block, |before|, r.recLen);
    }
  }

  lemma ListedFirst(block: seq<byte>, idx: nat, recLen: nat)
    requires idx + HEAD <= |block| && RecLen(block, idx) == recLen
    requires HEAD + block[idx + 6] <= recLen && idx + recLen <= |block|
    requires Tiled(block, idx + recLen)
    ensures Tiled(block, idx)
    ensures Listing(block, idx) == [EntryAt(block, idx)] + Listing(block, idx + recLen)
  {
    hide RecLen, EntryAt;
  }

  /** `strncmp(name, s, |name|) == 0` for a string `s` that a zero byte ends. */
  predicate StrncmpEqual(name: seq<byte>, s: seq<byte>) {
    if name == [] then true
    else
      var c := if s == [] then 0 else s[0];
      name[0] == c && (c == 0 || StrncmpEqual(name[1..], s[1..]))
  }

  /** For names without a zero byte the comparison asks whether the name is a prefix. */
  lemma {:induction false} StrncmpIsPrefix(name: seq<byte>, s: seq<byte>)
    requires 0 !in name && 0 !in s
    ensures StrncmpEqual(name, s) <==> name <= s
  {
    if name != [] && s != [] && name[0] == s[0] {
      assert name[0] in name;
      StrncmpIsPrefix(name[1..], s[1..]);
      if name[1..] <= s[1..] {
        assert name == [name[0]] + name[1..] && s == [s[0]] + s[1..];
      }
    } else if name != [] {
      assert name[0] in name;
    }
  }

  /** A name up to its first zero byte. */
  function UpToZero(name: seq<byte>): seq<byte> {
    if name == [] || name[0] == 0 then [] else [name[0]] + UpToZero(name[1..])
  }

  /** A stored name that holds a zero byte is accepted exactly when what stands before that byte is
      the whole wanted name. */
  lemma {:induction false} StrncmpWithZero(name: seq<byte>, s: seq<byte>)
    requires 0 in name && 0 !in s
    ensures StrncmpEqual(name, s) <==> UpToZero(name) == s
  {
    if name[0] != 0 && s != [] && name[0] == s[0] {
      assert name == [name[0]] + name[1..] && s == [s[0]] + s[1..];
      StrncmpWithZero(name[1..], s[1..]);
    } else if name[0] == 0 && s != [] {
      assert s[0] in s;
    }
  }

  /** The first entry the comparison accepts. */
  function Find(es: seq<Dirent>, s: seq<byte>): (r: Option<Dirent>)
    ensures r.Some? ==> r.value in es
  {
    if es == [] then None
    else if StrncmpEqual(es[0].name, s) then Some(es[0])
    else Find(es[1..], s)
  }

  /** A directory marks an entry that it no longer uses by inode number 0; the name may stay. */
  predicate InUse(e: Dirent) { e.ino != 0 }

  /** The first entry in use of exactly this name. */
  function FindExact(es: seq<Dirent>, s: seq<byte>): Option<Dirent> {
    if es == [] then None
    else if InUse(es[0]) && es[0].name == s then Some(es[0])
    else FindExact(es[1..], s)
  }

  /** An entry that the comparison accepts although it is not the wanted one: its name is a proper
      prefix, or it has the name but is not in use. */
  predicate Shadows(e: Dirent, s: seq<byte>) {
    e.name < s || (e.name == s && !InUse(e))
  }

  /** Such an entry stands before any entry in use of that name. */
  predicate Shadowed(es: seq<Dirent>, s: seq<byte>) {
    exists k :: 0 <= k < |es| && Shadows(es[k], s)
                && forall j :: 0 <= j < k ==> !(InUse(es[j]) && es[j].name == s)
  }

  ghost predicate PlainNames(es: seq<Dirent>) {
    forall k :: 0 <= k < |es| ==> 0 !in es[k].name
  }

  lemma {:induction false} FindAppend(es: seq<Dirent>, fs: seq<Dirent>, s: seq<byte>)
    ensures Find(es + fs, s) == if Find(es, s).Some? then Find(es, s) else Find(fs, s)
  {
    if es == [] {
      assert es + fs == fs;
    } else {
      assert (es + fs)[1..] == es[1..] + fs;
      FindAppend(es[1..], fs, s);
    }
  }

  /** The lookup finds the entry in use of the given name, or its absence, exactly when nothing
      shadows it. */
  lemma {:induction false} FindIsExact(es: seq<Dirent>, s: seq<byte>)
    requires PlainNames(es) && 0 !in s
    ensures Find(es, s) == FindExact(es, s) <==> !Shadowed(es, s)
  {
    if es != [] {
      StrncmpIsPrefix(es[0].name, s);
      if InUse(es[0]) && es[0].name == s {
        assert !Shadowed(es, s);
      } else if es[0].name <= s {
        assert Shadows(es[0], s) && Shadowed(es, s);
        FindExactName(es, s);
      } else {
        FindIsExact(es[1..], s);
        ShadowTail(es, s);
      }
    }
  }

  lemma {:induction false} FindExactName(es: seq<Dirent>, s: seq<byte>)
    ensures FindExact(es, s).Some? ==>
      InUse(FindExact(es, s).value) && FindExact(es, s).value.name == s
  {
    if es != [] {
      FindExactName(es[1..], s);
    }
  }

  /** The exact lookup yields the first entry of that name whose inode number is not 0, and nothing if
      there is none. */
  lemma {:induction false} FindExactFirst(es: seq<Dirent>, s: seq<byte>, k: nat)
    requires k <= |es| && forall j :: 0 <= j < k ==> !(es[j].ino != 0 && es[j].name == s)
    requires k < |es| ==> es[k].ino != 0 && es[k].name == s
    ensures FindExact(es, s) == if k < |es| then Some(es[k]) else None
    decreases |es|
  {
    if k > 0 {
      assert !(es[0].ino != 0 && es[0].name == s);
      assert forall j :: 0 <= j < k - 1 ==> es[1..][j] == es[j + 1];
      FindExactFirst(es[1..], s, k - 1);
    }
  }

  lemma ShadowTail(es: seq<Dirent>, s: seq<byte>)
    requires es != [] && !(es[0].name <= s)
    ensures Shadowed(es, s) <==> Shadowed(es[1..], s)
  {
    hide InUse;
    if Shadowed(es, s) {
      var k :| 0 <= k < |es| && Shadows(es[k], s)
        && forall j :: 0 <= j < k ==> !(InUse(es[j]) && es[j].name == s);
      assert es[1..][k - 1] == es[k];
      assert forall j :: 0 <= j < k - 1 ==> es[1..][j] == es[j + 1];
    }
    if Shadowed(es[1..], s) {
      var k :| 0 <= k < |es[1..]| && Shadows(es[1..][k], s)
        && forall j :: 0 <= j < k ==> !(InUse(es[1..][j]) && es[1..][j].name == s);
      assert es[k + 1] == es[1..][k];
      forall j | 0 <= j < k + 1 ensures !(InUse(es[j]) && es[j].name == s) {
        if j > 0 { assert es[j] == es[1..][j - 1]; }
      }
    }
  }

  /** In a directory that lists "a" before "ab", looking up "ab" yields the inode of "a". */
  lemma ShadowExample()
    ensures var es := [Dirent(11, [97]), Dirent(12, [97, 98])];
      Find(es, [97, 98]) == Some(es[0]) && FindExact(es, [97, 98]) == Some(es[1])
  {
    var es := [Dirent(11, [97]), Dirent(12, [97, 98])];
    StrncmpIsPrefix([97], [97, 98]);
    assert es[1..] == [es[1]];
    assert FindExact(es[1..], [97, 98]) == Some(es[1]);
  }

  /** A deleted entry that kept its name hides the entry in use behind it, and one that stands alone
      is found although the file is gone. */
  lemma UnusedExample()
    ensures var es := [Dirent(0, [97]), Dirent(12, [97])];
      && Find(es, [97]) == Some(es[0]) && FindExact(es, [97]) == Some(es[1])
      && Find(es[..1], [97]) == Some(es[0]) && FindExact(es[..1], [97]) == None
  {
    var es := [Dirent(0, [97]), Dirent(12, [97])];
    StrncmpIsPrefix([97], [97]);
    assert es[1..] == [es[1]] && es[..1] == [es[0]];
    assert FindExact(es[1..], [97]) == Some(es[1]);
    assert FindExact([es[0]], [97]) == FindExact([], [97]);
  }

  /** A block read by its map entry. */
  function BlockAt(disk: seq<byte>, b: u32): seq<byte>
    requires BlockPos(b) + BLOCK <= |disk|
  {
    disk[BlockPos(b)..BlockPos(b) + BLOCK]
  }

  /** The blocks that a scan visits from map entry `o` on are on the disk and their entries tile
      them. The thirteenth map entry is scanned too. */
  ghost predicate Scannable(disk: seq<byte>, dir: seq<byte>, o: nat)
    requires |dir| == INODE
    decreases DIR_BLOCKS - o
  {
    o >= DIR_BLOCKS || Pointer(dir, o) == 0 ||
    (&& BlockPos(Pointer(dir, o)) + BLOCK <= |disk|
     && Tiled(BlockAt(disk, Pointer(dir, o)), 0)
     && Scannable(disk, dir, o + 1))
  }

  /** All entries of a directory, block after block, up to the first empty map entry. */
  ghost function DirListing(disk: seq<byte>, dir: seq<byte>, o: nat): seq<Dirent>
    requires |dir| == INODE && Scannable(disk, dir, o)
    decreases DIR_BLOCKS - o
  {
    if o >= DIR_BLOCKS || Pointer(dir, o) == 0 then []
    else Listing(BlockAt(disk, Pointer(dir, o)), 0) + DirListing(disk, dir, o + 1)
  }

  /** Map entry `p` is in use, and its block lists `e`. */
  ghost predicate BlockLists(disk: seq<byte>, dir: seq<byte>, p: nat, e: Dirent)
    requires |dir| == INODE && p < 15
  {
    && Pointer(dir, p) != 0 && BlockPos(Pointer(dir, p)) + BLOCK <= |disk|
    && Tiled(BlockAt(disk, Pointer(dir, p)), 0)
    && e in Listing(BlockAt(disk, Pointer(dir, p)), 0)
  }

  predicate InUseUpTo(dir: seq<byte>, o: nat, p: nat)
    requires |dir| == INODE && p < 15
  {
    forall q :: o <= q <= p ==> Pointer(dir, q) != 0
  }

  /** A directory lists exactly the entries of the blocks of its first thirteen map entries, up to the
      first one that is 0. */
  lemma {:induction false} ListedExactly(disk: seq<byte>, dir: seq<byte>, o: nat, e: Dirent)
    requires |dir| == INODE && Scannable(disk, dir, o)
    ensures e in DirListing(disk, dir, o)
      <==> exists p :: o <= p < 13 && InUseUpTo(dir, o, p) && BlockLists(disk, dir, p, e)
    decreases 13 - o
  {
    hide Pointer, BlockAt, BlockPos, Tiled, Listing;
    if o < 13 && Pointer(dir, o) != 0 {
      ListedExactly(disk, dir, o + 1, e);
      if p :| o + 1 <= p < 13 && InUseUpTo(dir, o + 1, p) && BlockLists(disk, dir, p, e) {
        assert InUseUpTo(dir, o, p);
      }
      if BlockLists(disk, dir, o, e) {
        assert InUseUpTo(dir, o, o);
      }
      if p :| o <= p < 13 && InUseUpTo(dir, o, p) && BlockLists(disk, dir, p, e) {
        assert p == o || InUseUpTo(dir, o + 1, p);
      }
    }
  }

  /** The group descriptor of the entry, if there is one, lies on the disk. */
  ghost predicate Deliverable(disk: seq<byte>, sb: Superblock, e: Option<Dirent>)
    requires sb.inodesPerGroup > 0
  {
    e.Some? ==> GroupOnDisk(disk, sb, e.value.ino)
  }

  // ----- the scan of one block, step by step

  /** A scan in progress with what its buffer holds and where it stands; or its end with the number
      of the accepted entry, or without one, or with a copy from outside the buffer. */
  datatype Scan = At(buf: seq<byte>, idx: nat) | Hit(ino: u32) | Miss | Astray

  /** The buffer after `len` bytes at `src` have been copied to its front. */
  function Fronted(buf: seq<byte>, src: nat, len: nat): (r: seq<byte>)
    requires src + len <= |buf|
    ensures |r| == |buf|
  {
    buf[src..src + len] + buf[len..]
  }

  /** The length that the fixed part at `idx` gives, read once it is at the front. */
  function LenAt(buf: seq<byte>, idx: nat): nat
    requires idx + HEAD <= |buf|
  {
    RecLen(Fronted(buf, idx, HEAD), 0)
  }

  /** Both copies of a turn: the fixed part, then by the length found there all of the entry. */
  function Copied(buf: seq<byte>, idx: nat): (r: seq<byte>)
    requires idx + HEAD <= |buf| && idx + LenAt(buf, idx) <= |buf|
    ensures |r| == |buf|
  {
    Fronted(Fronted(buf, idx, HEAD), idx, LenAt(buf, idx))
  }

  /** One turn: the entry at the front is compared, and the scan goes on by its length. */
  function Turn(sc: Scan, s: seq<byte>): (r: Scan)
    requires sc.At? ==> |sc.buf| == BLOCK
    ensures r.At? ==> |r.buf| == BLOCK
  {
    if !sc.At? then sc
    else if sc.idx >= BLOCK then Miss
    else if sc.idx + HEAD > BLOCK || sc.idx + LenAt(sc.buf, sc.idx) > BLOCK then Astray
    else
      var buf := Copied(sc.buf, sc.idx);
      var e := EntryAt(buf, 0);
      if StrncmpEqual(e.name, s) then Hit(e.ino) else At(buf, sc.idx + RecLen(buf, 0))
  }

  function Turns(sc: Scan, s: seq<byte>, n: nat): (r: Scan)
    requires sc.At? ==> |sc.buf| == BLOCK
    ensures r.At? ==> |r.buf| == BLOCK
    decreases n
  {
    if n == 0 then sc else Turns(Turn(sc, s), s, n - 1)
  }

  lemma {:induction false} TurnsAdd(sc: Scan, s: seq<byte>, m: nat, n: nat)
    requires sc.At? ==> |sc.buf| == BLOCK
    ensures Turns(sc, s, m + n) == Turns(Turns(sc, s, m), s, n)
    decreases m
  {
    hide Turn;
    if m != 0 {
      TurnsAdd(Turn(sc, s), s, m - 1, n);
    }
  }

  /** A scan that has ended stays where it is. */
  lemma {:induction false} EndedStays(sc: Scan, s: seq<byte>, n: nat)
    requires !sc.At?
    ensures Turns(sc, s, n) == sc
    decreases n
  {
    if n != 0 {
      EndedStays(sc, s, n - 1);
    }
  }

  ghost predicate Ends(buf: seq<byte>, s: seq<byte>)
    requires |buf| == BLOCK
  {
    exists n: nat :: !Turns(At(buf, 0), s, n).At?
  }

  /** The turn is at an entry of length 0 that is not accepted: the scan stays where it was. */
  ghost predicate Stalls(sc: Scan, s: seq<byte>)
    requires sc.At? ==> |sc.buf| == BLOCK
  {
    sc.At? && Turn(sc, s).At? && Turn(sc, s).idx == sc.idx
  }

  /** A turn stalls exactly for the length 0. */
  lemma StallsAtZero(sc: Scan, s: seq<byte>)
    requires sc.At? && |sc.buf| == BLOCK && Turn(sc, s).At?
    ensures sc.idx + HEAD <= BLOCK && sc.idx + LenAt(sc.buf, sc.idx) <= BLOCK
    ensures Stalls(sc, s) <==> RecLen(Copied(sc.buf, sc.idx), 0) == 0
  {
    hide Copied, LenAt, EntryAt, StrncmpEqual, RecLen;
  }

  /** The copies leave the bytes behind the entry alone and bring the entry to the front. From a
      position behind the fixed part of the front they read what was there before the turn. */
  lemma CopiedFar(buf: seq<byte>, idx: nat)
    requires |buf| == BLOCK && (idx == 0 || idx >= HEAD) && idx + HEAD <= BLOCK
    ensures LenAt(buf, idx) == RecLen(buf, idx)
    ensures idx + RecLen(buf, idx) <= BLOCK ==>
      && RecLen(Copied(buf, idx), 0) == RecLen(buf, idx)
      && (forall k :: 0 <= k < HEAD || 0 <= k < RecLen(buf, idx) ==> Copied(buf, idx)[k] == buf[idx + k])
      && (forall k :: HEAD <= k < BLOCK && RecLen(buf, idx) <= k ==> Copied(buf, idx)[k] == buf[k])
  {
    hide Fronted, RecLen;
    var b1, n := Fronted(buf, idx, HEAD), RecLen(buf, idx);
    FrontedAt(buf, idx, HEAD, 4);
    FrontedAt(buf, idx, HEAD, 5);
    LenAlike(b1, 0, buf, idx);
    if idx + n <= BLOCK {
      forall k | 0 <= k < BLOCK
        ensures k < HEAD || k < n ==> Copied(buf, idx)[k] == buf[idx + k]
        ensures HEAD <= k && n <= k ==> Copied(buf, idx)[k] == buf[k]
      {
        FrontedAt(b1, idx, n, k);
        FrontedAt(buf, idx, HEAD, k);
        if k < n {
          FrontedAt(buf, idx, HEAD, idx + k);
        }
      }
      LenAlike(Copied(buf, idx), 0, buf, idx);
    }
  }

  lemma FrontedAt(buf: seq<byte>, src: nat, len: nat, k: nat)
    requires src + len <= |buf| && k < |buf|
    ensures Fronted(buf, src, len)[k] == if k < len then buf[src + k] else buf[k]
  {
  }

  /** A length is read from two bytes. */
  lemma LenAlike(a: seq<byte>, i: nat, b: seq<byte>, j: nat)
    requires i + HEAD <= |a| && j + HEAD <= |b|
    requires a[i + 4] == b[j + 4] && a[i + 5] == b[j + 5]
    ensures RecLen(a, i) == RecLen(b, j)
  {
    assert a[i + 4..i + 6] == b[j + 4..j + 6];
  }

  /** A stall at the start or behind the first fixed part repeats itself: such a scan never ends. */
  lemma StallRepeats(buf: seq<byte>, idx: nat, s: seq<byte>)
    requires |buf| == BLOCK && Stalls(At(buf, idx), s) && (idx == 0 || idx >= HEAD)
    ensures var next := Turn(At(buf, idx), s); Turn(next, s) == next
  {
    hide EntryAt, StrncmpEqual, Copied, LenAt, RecLen;
    StallsAtZero(At(buf, idx), s);
    CopiedFar(buf, idx);
    var b := Copied(buf, idx);
    CopiedFar(b, idx);
    LenAlike(b, idx, buf, idx);
    forall k | 0 <= k < BLOCK ensures Copied(b, idx)[k] == b[k] {
      if k < HEAD {
        assert b[k] == buf[idx + k] && Copied(b, idx)[k] == b[idx + k];
      }
    }
    assert Copied(b, idx) == b;
  }

  lemma {:induction false} FixedForever(sc: Scan, s: seq<byte>, n: nat)
    requires sc.At? && |sc.buf| == BLOCK && Turn(sc, s) == sc
    ensures Turns(sc, s, n) == sc
  {
    hide Turn;
    if n != 0 {
      FixedForever(sc, s, n - 1);
    }
  }

  /** From any state some turn ends the scan or stalls. */
  lemma EndsOrStalls(sc: Scan, s: seq<byte>) returns (n: nat)
    requires sc.At? ==> |sc.buf| == BLOCK
    ensures !Turns(sc, s, n).At? || Stalls(Turns(sc, s, n), s)
    decreases if sc.At? then BLOCK + HEAD + 0x1_0000 - sc.idx else 0
  {
    n := 0;
    if sc.At? && !Stalls(sc, s) {
      var next := Turn(sc, s);
      if next.At? {
        TurnAdvances(sc, s);
        n := EndsOrStalls(next, s);
      }
      n := n + 1;
    }
  }

  lemma TurnAdvances(sc: Scan, s: seq<byte>)
    requires sc.At? && |sc.buf| == BLOCK && Turn(sc, s).At?
    ensures sc.idx < BLOCK && sc.idx <= Turn(sc, s).idx < BLOCK + 0x1_0000
  {
    hide Copied, LenAt, EntryAt, StrncmpEqual;
  }

  /** The scan stands behind the start, but not behind the first fixed part. */
  predicate StandsBetween(sc: Scan) { sc.At? && 0 < sc.idx < HEAD }

  /** When a scan of a block ends: if no turn of it stalls, and only if none stalls at the start or
      behind the first fixed part. (A stall in between can be reached only over an entry that is
      shorter than its own fixed part.) */
  lemma ScanEnds(buf: seq<byte>, s: seq<byte>)
    requires |buf| == BLOCK
    ensures (forall n: nat :: !Stalls(Turns(At(buf, 0), s, n), s)) ==> Ends(buf, s)
    ensures Ends(buf, s) ==> forall n: nat ::
      Stalls(Turns(At(buf, 0), s, n), s) ==> StandsBetween(Turns(At(buf, 0), s, n))
  {
    hide Turn, Turns, Stalls;
    var start := At(buf, 0);
    var m := EndsOrStalls(start, s);
    if k: nat :| !Turns(start, s, k).At? {
      forall n: nat | Stalls(Turns(start, s, n), s)
        ensures StandsBetween(Turns(start, s, n))
      {
        StallIsBetween(start, s, k, n);
      }
    }
  }

  lemma StallIsBetween(start: Scan, s: seq<byte>, k: nat, n: nat)
    requires start.At? && |start.buf| == BLOCK && !Turns(start, s, k).At?
    requires Stalls(Turns(start, s, n), s)
    ensures StandsBetween(Turns(start, s, n))
  {
    hide Turn, Turns;
    var sc := Turns(start, s, n);
    if sc.idx == 0 || sc.idx >= HEAD {
      StallRepeats(sc.buf, sc.idx, s);
      var next := Turn(sc, s);
      OneMore(start, s, n);
      FixedForever(next, s, k);
      TurnsAdd(start, s, n + 1, k);
      TurnsAdd(start, s, k, n + 1);
      EndedStays(Turns(start, s, k), s, n + 1);
    }
  }

  lemma OneMore(sc: Scan, s: seq<byte>, n: nat)
    requires sc.At? ==> |sc.buf| == BLOCK
    ensures Turns(sc, s, n + 1) == Turn(Turns(sc, s, n), s)
  {
    hide Turn;
    TurnsAdd(sc, s, n, 1);
    var last := Turns(sc, s, n);
    assert Turns(last, s, 1) == Turns(Turn(last, s), s, 0);
  }

  function EndlessBlock(): (block: seq<byte>)
    ensures |block| == BLOCK
  {
    var zeros: seq<byte> := seq(BLOCK, _ => 0);
    zeros[6 := 1][8 := 120]
  }

  /** A block that starts with an entry "x" of length 0: looking up "a" in it never ends. */
  lemma EndlessExample()
    ensures !Ends(EndlessBlock(), [97])
  {
    hide Turn, Turns, EndlessBlock;
    var start := At(EndlessBlock(), 0);
    EndlessBytes();
    EndlessTurn(EndlessBlock(), [97]);
    TurnsZero(start, [97]);
    ScanEnds(EndlessBlock(), [97]);
    assert Stalls(Turns(start, [97], 0), [97]);
  }

  lemma EndlessBytes()
    ensures var b := EndlessBlock();
      b[4] == 0 == b[5] && b[6] == 1 && !StrncmpEqual(b[HEAD..HEAD + 1], [97])
  {
    assert EndlessBlock()[HEAD..HEAD + 1] == [120];
  }

  /** An entry of length 0 at the start, not accepted, leaves everything as it was. */
  lemma EndlessTurn(block: seq<byte>, s: seq<byte>)
    requires |block| == BLOCK && block[4] == 0 == block[5]
    requires HEAD + block[6] <= BLOCK && !StrncmpEqual(block[HEAD..HEAD + block[6]], s)
    ensures Turn(At(block, 0), s) == At(block, 0)
  {
    hide RecLen, EntryIno, StrncmpEqual, Copied, LenAt;
    ZeroLength(block);
    CopiedFar(block, 0);
    assert Copied(block, 0) == block;
  }

  lemma ZeroLength(block: seq<byte>)
    requires |block| >= HEAD && block[4] == 0 == block[5]
    ensures RecLen(block, 0) == 0
  {
    assert block[4..6] == [0, 0] && [0, 0][1..] == [0];
    assert FromLe([0]) == 0;
  }

  // ----- well-formed blocks

  /** The entry at `idx`, once its bytes have been copied to the front. */
  lemma FrontEntry(block: seq<byte>, idx: nat, front: seq<byte>)
    requires idx < |block| && Tiled(block, idx)
    requires |front| >= RecLen(block, idx)
    requires forall k :: 0 <= k < RecLen(block, idx) ==> front[k] == block[idx + k]
    ensures EntryAt(front, 0) == EntryAt(block, idx)
  {
    assert front[0..4] == block[idx..idx + 4];
    assert front[6] == block[idx + 6];
    assert front[HEAD..HEAD + front[6]] == block[idx + HEAD..idx + HEAD + block[idx + 6]];
  }

  /** The buffer agrees with the block as it was read from `idx` on. */
  ghost predicate Agrees(buf: seq<byte>, block: seq<byte>, idx: nat) {
    && |buf| == BLOCK == |block| && (idx == 0 || idx >= HEAD)
    && forall i :: idx <= i < BLOCK ==> buf[i] == block[i]
  }

  /** A turn at an entry of a well-formed block finds exactly that entry at the front, and leaves the
      bytes not scanned yet as they were. */
  lemma TiledTurn(buf: seq<byte>, block: seq<byte>, idx: nat, s: seq<byte>)
    requires Agrees(buf, block, idx) && idx < BLOCK && Tiled(block, idx)
    ensures idx + HEAD <= BLOCK && idx + LenAt(buf, idx) <= BLOCK
    ensures var e, next := EntryAt(block, idx), idx + RecLen(block, idx);
      && EntryAt(Copied(buf, idx), 0) == e && Agrees(Copied(buf, idx), block, next)
      && Turn(At(buf, idx), s)
         == if StrncmpEqual(e.name, s) then Hit(e.ino) else At(Copied(buf, idx), next)
  {
    hide StrncmpEqual, Copied, LenAt, EntryAt;
    assert buf[idx + 4..idx + 6] == block[idx + 4..idx + 6];
    CopiedFar(buf, idx);
    FrontEntry(block, idx, Copied(buf, idx));
  }

  /** A scan of a well-formed block ends, and finds what the listing of the block as it was read
      would find first. */
  lemma {:induction false} TiledScan(buf: seq<byte>, block: seq<byte>, idx: nat, s: seq<byte>)
    returns (n: nat)
    requires Agrees(buf, block, idx) && idx <= BLOCK && Tiled(block, idx)
    ensures Turns(At(buf, idx), s, n) == Outcome(Find(Listing(block, idx), s))
    decreases BLOCK - idx
  {
    hide EntryAt, Copied, Tiled, Listing, RecLen, Find, StrncmpEqual, LenAt;
    if idx == BLOCK {
      NothingListed(block, s);
      assert Turns(At(buf, idx), s, 1) == Turns(Miss, s, 0);
      return 1;
    }
    TiledTurn(buf, block, idx, s);
    FindStep(block, idx, s);
    var m := 0;
    if !StrncmpEqual(EntryAt(block, idx).name, s) {
      m := TiledScan(Copied(buf, idx), block, idx + RecLen(block, idx), s);
    }
    n := m + 1;
  }

  /** The end of a scan that accepts `e`. */
  function Outcome(e: Option<Dirent>): Scan {
    if e.Some? then Hit(e.value.ino) else Miss
  }

  /** The search goes on behind an entry that the comparison does not accept. */
  lemma FindStep(block: seq<byte>, idx: nat, s: seq<byte>)
    requires idx < |block| && Tiled(block, idx)
    ensures idx + HEAD <= idx + RecLen(block, idx) <= |block| && Tiled(block, idx + RecLen(block, idx))
    ensures idx + HEAD + block[idx + 6] <= |block|
    ensures Find(Listing(block, idx), s)
         == if StrncmpEqual(EntryAt(block, idx).name, s) then Some(EntryAt(block, idx))
            else Find(Listing(block, idx + RecLen(block, idx)), s)
  {
    hide RecLen, EntryAt, StrncmpEqual;
    var es := Listing(block, idx);
    assert es[1..] == Listing(block, idx + RecLen(block, idx));
  }

  lemma NothingListed(block: seq<byte>, s: seq<byte>)
    ensures Tiled(block, |block|) && Listing(block, |block|) == []
    ensures Find(Listing(block, |block|), s) == None
  {
  }

  // ----- the scan in place

  /** Copies the entry at `idx` over the front: first its fixed part, then, by the length found
      there, all of it. */
  method CopyEntry(buffer: array<byte>, idx: nat)
    requires buffer.Length == BLOCK && idx + HEAD <= BLOCK && idx + LenAt(buffer[..], idx) <= BLOCK
    modifies buffer
    ensures buffer[..] == Copied(old(buffer[..]), idx)
  {
    hide Fronted, FromLe;
    CopyFront(buffer, idx, HEAD);
    assert buffer[4..6] == buffer[..][4..6];
    CopyFront(buffer, idx, FromLe(buffer[4..6]));
  }

  method CopyFront(buffer: array<byte>, src: nat, len: nat)
    requires src + len <= buffer.Length
    modifies buffer
    ensures buffer[..] == Fronted(old(buffer[..]), src, len)
  {
    CopyToFront(buffer, src, len);
    assert forall k :: 0 <= k < buffer.Length ==> buffer[k] == Fronted(old(buffer[..]), src, len)[k];
  }

  /** One turn of the scan: the number of the entry if it is accepted, and its length. */
  method ScanTurn(buffer: array<byte>, idx: nat, s: seq<byte>) returns (r: Option<u32>, recLen: nat)
    requires buffer.Length == BLOCK && idx < BLOCK && Turn(At(buffer[..], idx), s) != Astray
    modifies buffer
    ensures Turn(At(old(buffer[..]), idx), s)
         == if r.Some? then Hit(r.value) else At(buffer[..], idx + recLen)
  {
    hide Copied, LenAt, StrncmpEqual;
    CopyEntry(buffer, idx);
    var e := EntryAt(buffer[..], 0);
    r := if StrncmpEqual(e.name, s) then Some(e.ino) else None;
    recLen := RecLen(buffer[..], 0);
  }

  /** The in-place scan of one block, for every block on which it ends inside. On a well-formed block
      it agrees with the listing of the block as it was read. */
  method ScanBlock(buffer: array<byte>, s: seq<byte>) returns (r: Option<u32>)
    requires buffer.Length == BLOCK
    requires exists n: nat :: Turns(At(buffer[..], 0), s, n) == Miss || Turns(At(buffer[..], 0), s, n).Hit?
    modifies buffer
    ensures exists n: nat ::
      Turns(At(old(buffer[..]), 0), s, n) == if r.Some? then Hit(r.value) else Miss
    ensures Tiled(old(buffer[..]), 0) ==>
      var e := Find(Listing(old(buffer[..]), 0), s);
      r == if e.Some? then Some(e.value.ino) else None
  {
    hide Turn, Turns, Tiled, Listing, Find;
    ghost var start := At(buffer[..], 0);
    ghost var m: nat :| Turns(start, s, m) == Miss || Turns(start, s, m).Hit?;
    ghost var k: nat := 0;
    TurnsZero(start, s);
    var idx: nat := 0;
    r := None;
    while idx < BLOCK
      invariant k <= m && Turns(start, s, k) == At(buffer[..], idx) && r == None
      decreases m - k
    {
      StillOn(start, s, k, m);
      OneMore(start, s, k);
      var recLen;
      r, recLen := ScanTurn(buffer, idx, s);
      k := k + 1;
      if r.Some? {
        ScanAgrees(start.buf, s, k);
        return;
      }
      BeforeEnd(start, s, k, m);
      idx := idx + recLen;
    }
    OneMore(start, s, k);
    PastEnd(buffer[..], idx, s);
    ScanAgrees(start.buf, s, k + 1);
  }

  lemma TurnsZero(sc: Scan, s: seq<byte>)
    requires sc.At? ==> |sc.buf| == BLOCK
    ensures Turns(sc, s, 0) == sc
  {
  }

  lemma PastEnd(buf: seq<byte>, idx: nat, s: seq<byte>)
    requires |buf| == BLOCK && idx >= BLOCK
    ensures Turn(At(buf, idx), s) == Miss
  {
  }

  /** A scan in progress at turn `k` ends later than that. */
  lemma BeforeEnd(sc: Scan, s: seq<byte>, k: nat, m: nat)
    requires sc.At? && |sc.buf| == BLOCK && Turns(sc, s, k).At? && !Turns(sc, s, m).At?
    ensures k < m
  {
    hide Turn, Turns;
    if k >= m {
      TurnsAdd(sc, s, m, k - m);
      EndedStays(Turns(sc, s, m), s, k - m);
    }
  }

  /** A scan that ends inside the block does not go astray on the way. */
  lemma StillOn(sc: Scan, s: seq<byte>, k: nat, m: nat)
    requires sc.At? && |sc.buf| == BLOCK && Turns(sc, s, k).At? && !Turns(sc, s, m).At?
    requires Turns(sc, s, m) != Astray
    ensures k < m && Turn(Turns(sc, s, k), s) != Astray
  {
    hide Turn, Turns;
    BeforeEnd(sc, s, k, m);
    OneMore(sc, s, k);
    TurnsAdd(sc, s, k + 1, m - (k + 1));
    if Turns(sc, s, k + 1) == Astray {
      EndedStays(Astray, s, m - (k + 1));
    }
  }

  /** Any end of the scan of a well-formed block is the one the listing gives. */
  lemma ScanAgrees(block: seq<byte>, s: seq<byte>, k: nat)
    requires |block| == BLOCK && !Turns(At(block, 0), s, k).At?
    ensures Tiled(block, 0) ==> Turns(At(block, 0), s, k) == Outcome(Find(Listing(block, 0), s))
  {
    hide Turn, Turns, Tiled, Listing, Find;
    if Tiled(block, 0) {
      var start := At(block, 0);
      var n := TiledScan(block, block, 0, s);
      TurnsAdd(start, s, k, n);
      TurnsAdd(start, s, n, k);
      EndedStays(Turns(start, s, k), s, n);
      EndedStays(Turns(start, s, n), s, k);
    }
  }

  /** What a lookup delivers: the number of the first accepted entry, also when its inode cannot
      be fetched, and the inode if it can. */
  datatype Found = Found(ok: bool, ino: u32, inode: seq<byte>)

  /** What a scan that accepted `e` delivers when the descriptor buffer held `held`. Without an
      accepted entry the number and the inode stay what they were. */
  ghost function Deliver(disk: seq<byte>, sb: Superblock, e: Option<Dirent>, held: seq<byte>,
                         ino0: u32, inode0: seq<byte>): (r: Found)
    requires sb.inodesPerGroup > 0 && |held| == GROUP
    ensures |inode0| == INODE ==> |r.inode| == INODE
  {
    if e.None? then Found(false, ino0, inode0)
    else
      var stored := Fetched(disk, sb, e.value.ino, held);
      if stored.Some? then Found(true, e.value.ino, stored.value)
      else Found(false, e.value.ino, inode0)
  }

  /** With a group descriptor on the disk, what the buffer held plays no part. */
  lemma HeldIrrelevant(disk: seq<byte>, sb: Superblock, e: Option<Dirent>, held: seq<byte>,
                       held': seq<byte>, ino0: u32, inode0: seq<byte>)
    requires sb.inodesPerGroup > 0 && |held| == GROUP == |held'| && Deliverable(disk, sb, e)
    ensures Deliver(disk, sb, e, held, ino0, inode0) == Deliver(disk, sb, e, held', ino0, inode0)
  {
    hide GroupOf, InodeAt, GroupOnDisk;
  }

  ghost function Lookup(disk: seq<byte>, sb: Superblock, dir: seq<byte>, s: seq<byte>,
                        held: seq<byte>, ino0: u32, inode0: seq<byte>): (r: Found)
    requires |dir| == INODE && sb.inodesPerGroup > 0 && Scannable(disk, dir, 0) && |held| == GROUP
    ensures |inode0| == INODE ==> |r.inode| == INODE
  {
    Deliver(disk, sb, Find(DirListing(disk, dir, 0), s), held, ino0, inode0)
  }

  method ReadBlock(driver: BlkDriver, b: u32) returns (buffer: array<byte>)
    requires driver.Valid() && !driver.device.faulty
    requires BlockPos(b) + BLOCK <= |driver.device.disk|
    modifies driver.Repr()
    ensures driver.Valid() && driver.device.disk == old(driver.device.disk)
    ensures fresh(buffer) && buffer.Length == BLOCK && buffer[..] == BlockAt(driver.device.disk, b)
  {
    hide BlockPos, ReadIos, Splice, CutAt;
    buffer := new byte[BLOCK];
    ghost var before := buffer[..];
    var n := driver.ReadSync(buffer, 0, BlockPos(b), BLOCK);
    SpliceReadBack(before, 0, BlockAt(driver.device.disk, b));
    assert buffer[..][0..BLOCK] == buffer[..];
  }

  /** The search through a directory, block by block. */
  lemma DirFindStep(disk: seq<byte>, dir: seq<byte>, o: nat, s: seq<byte>)
    requires |dir| == INODE && Scannable(disk, dir, o)
    ensures o >= DIR_BLOCKS || Pointer(dir, o) == 0 ==> Find(DirListing(disk, dir, o), s) == None
    ensures o < DIR_BLOCKS && Pointer(dir, o) != 0 ==>
      && BlockPos(Pointer(dir, o)) + BLOCK <= |disk| && Scannable(disk, dir, o + 1)
      && var block := BlockAt(disk, Pointer(dir, o));
      && Tiled(block, 0)
      && var e := Find(Listing(block, 0), s);
      Find(DirListing(disk, dir, o), s) == if e.Some? then e else Find(DirListing(disk, dir, o + 1), s)
  {
    hide Find, Listing, Tiled, Pointer, BlockAt, BlockPos;
    if o < DIR_BLOCKS && Pointer(dir, o) != 0 {
      FindAppend(Listing(BlockAt(disk, Pointer(dir, o)), 0), DirListing(disk, dir, o + 1), s);
    } else {
      FindNothing(s);
    }
  }

  /** Looks a name up in a directory, block by block, and fetches the inode of the first entry that
      the comparison accepts. `g` tells whether the group descriptor of that entry arrived, which it
      does exactly when it lies on the disk, and `held` is what its buffer then held. */
  method InodeFromDir(driver: BlkDriver, sb: Superblock, s: seq<byte>, dir: array<byte>,
                      inode: array<byte>, ino0: u32)
    returns (ok: bool, ino: u32, ghost g: bool, ghost held: seq<byte>)
    requires driver.Valid() && sb.inodesPerGroup > 0 && !driver.device.faulty
    requires dir.Length == INODE == inode.Length && dir != inode && {dir, inode} !! driver.Repr()
    requires Scannable(driver.device.disk, dir[..], 0)
    modifies driver.Repr(), inode
    ensures driver.Valid() && driver.device.disk == old(driver.device.disk) && |held| == GROUP
    ensures Found(ok, ino, inode[..])
         == Lookup(driver.device.disk, sb, dir[..], s, held, ino0, old(inode[..]))
    ensures var e := Find(DirListing(driver.device.disk, dir[..], 0), s);
      && (e.None? ==> !ok && ino == ino0 && inode[..] == old(inode[..]))
      && (e.Some? ==>
            && ino == e.value.ino && (g <==> GroupOnDisk(driver.device.disk, sb, ino))
            && |driver.device.trace| >= 2
            && Ext2.InodeFetched(driver.device.disk, sb, ino, g, held, ok, inode[..],
                                 driver.device.trace[..|driver.device.trace| - 2], driver.device.trace))
  {
    hide GroupOf, InodePos, InodeAt, Pointer, Tiled, BlockPos, Find, Listing, GroupOnDisk, PosInTable;
    hide Fetched, Turns, DirListing, Scannable;
    ghost var disk, map0 := driver.device.disk, dir[..];
    ghost var wanted := Find(DirListing(disk, map0, 0), s);
    var o := 0;
    while o < DIR_BLOCKS
      invariant driver.Valid() && driver.device.disk == disk && dir[..] == map0
      invariant inode[..] == old(inode[..]) && o <= DIR_BLOCKS
      invariant Scannable(disk, map0, o)
      invariant wanted == Find(DirListing(disk, map0, o), s)
    {
      DirFindStep(disk, map0, o, s);
      var b := Pointer(dir[..], o);
      if b == 0 {
        break;
      }
      var buffer := ReadBlock(driver, b);
      ghost var block := buffer[..];
      ghost var n := TiledScan(block, block, 0, s);
      var hit := ScanBlock(buffer, s);
      if hit.Some? {
        assert wanted.Some? && wanted.value.ino == hit.value;
        ghost var trace := driver.device.trace;
        ok, g, held := Ext2.InodeFromIno(driver, sb, inode, hit.value);
        assert driver.device.trace[..|driver.device.trace| - 2] == trace;
        return ok, hit.value, g, held;
      }
      o := o + 1;
    }
    DirFindStep(disk, map0, o, s);
    return false, ino0, false, seq(GROUP, _ => 0);
  }

  lemma FindNothing(s: seq<byte>)
    ensures Find([], s) == None
  {
  }
}

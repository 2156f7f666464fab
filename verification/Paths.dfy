/** Paths: `strtok` on slashes, and the two resolvers as folds of directory lookup. */
module Paths {
  import opened Words
  import opened Bytes
  import opened Virtio
  import opened Blk
  import opened Ext2Disk
  import Ext2
  import opened Directories
  import opened Volumes

  const SLASH: byte := 47
  const ROOT: u32 := 2

  /** The bytes up to the first slash. */
  function Token(s: seq<byte>): (t: seq<byte>)
    ensures |t| <= |s| && t == s[..|t|] && SLASH !in t
    ensures |t| < |s| ==> s[|t|] == SLASH
  {
    if s == [] || s[0] == SLASH then [] else [s[0]] + Token(s[1..])
  }

  /** The non-empty parts of a path between slashes. */
  function Components(s: seq<byte>): seq<seq<byte>>
    decreases |s|
  {
    if s == [] then []
    else if s[0] == SLASH then Components(s[1..])
    else
      var t := Token(s);
      [t] + Components(s[|t|..])
  }

  /** A path of two parts has the components of both: leading, trailing and repeated slashes count
      for nothing. */
  lemma {:induction false} ComponentsSplit(a: seq<byte>, b: seq<byte>)
    ensures Components(a + [SLASH] + b) == Components(a) + Components(b)
    decreases |a|
  {
    hide Components, Token;
    var s := a + [SLASH] + b;
    if a == [] {
      ComponentsOfNothing();
      ComponentsSkip(s);
      assert s[1..] == b;
    } else if a[0] == SLASH {
      ComponentsSkip(a);
      ComponentsSkip(s);
      JoinedTail(a, b, 1);
      ComponentsSplit(a[1..], b);
    } else {
      var n := |Token(a)|;
      TokenNonEmpty(a);
      ComponentsFirst(a);
      ComponentsFirst(s);
      TokenBeforeSlash(a, [SLASH] + b);
      assert s == a + ([SLASH] + b);
      JoinedTail(a, b, n);
      ComponentsSplit(a[n..], b);
    }
  }

  lemma JoinedTail(a: seq<byte>, b: seq<byte>, n: nat)
    requires n <= |a|
    ensures (a + [SLASH] + b)[n..] == a[n..] + [SLASH] + b
  {
  }

  lemma ComponentsOfNothing()
    ensures Components([]) == []
  {
  }

  lemma ComponentsSkip(s: seq<byte>)
    requires s != [] && s[0] == SLASH
    ensures Components(s) == Components(s[1..])
  {
  }

  lemma TokenNonEmpty(s: seq<byte>)
    requires s != [] && s[0] != SLASH
    ensures Token(s) != []
  {
  }

  lemma ComponentsFirst(s: seq<byte>)
    requires s != [] && s[0] != SLASH
    ensures Components(s) == [Token(s)] + Components(s[|Token(s)|..])
  {
    hide Token;
  }

  lemma {:induction false} TokenBeforeSlash(a: seq<byte>, r: seq<byte>)
    requires r != [] && r[0] == SLASH
    ensures Token(a + r) == Token(a)
  {
    if a == [] {
      assert a + r == r;
    } else if a[0] != SLASH {
      assert (a + r)[1..] == a[1..] + r;
      TokenBeforeSlash(a[1..], r);
    }
  }

  /** A part without slashes is one component. */
  lemma ComponentsPlain(a: seq<byte>)
    requires a != [] && SLASH !in a
    ensures Components(a) == [a]
  {
    var t := Token(a);
    assert t == a;
    assert a[|a|..] == [];
  }

  /** The byte 47 separates components, and no other byte does. */
  lemma SlashSeparates(a: seq<byte>, b: seq<byte>)
    ensures Components(a + [47] + b) == Components(a) + Components(b)
    ensures a != [] && 47 !in a ==> Components(a) == [a]
  {
    hide Components;
    ComponentsSplit(a, b);
    if a != [] && 47 !in a {
      ComponentsPlain(a);
    }
  }

  /** Names with one slash between each and the next. */
  function Joined(names: seq<seq<byte>>): seq<byte> {
    if names == [] then []
    else if |names| == 1 then names[0]
    else names[0] + [SLASH] + Joined(names[1..])
  }

  /** A list of plain names comes back from the path they make, with or without a leading slash. */
  lemma {:induction false} ComponentsJoined(names: seq<seq<byte>>)
    requires forall n :: n in names ==> n != [] && SLASH !in n
    ensures Components(Joined(names)) == names
    ensures Components([SLASH] + Joined(names)) == names
  {
    if names != [] {
      assert names[0] in names;
      ComponentsPlain(names[0]);
      if |names| > 1 {
        ComponentsJoined(names[1..]);
        ComponentsSplit(names[0], Joined(names[1..]));
        assert [names[0]] + names[1..] == names;
      }
    }
    assert ([SLASH] + Joined(names))[1..] == Joined(names);
  }

  /** The text at `from`, up to the zero byte at `end`. */
  ghost predicate TextAt(p: seq<byte>, from: nat, end: nat) {
    from <= end < |p| && p[end] == 0 && forall i :: from <= i < end ==> p[i] != 0
  }

  /** Nothing but slashes has changed, and those only to zero bytes. */
  ghost predicate SlashesCut(p: seq<byte>, q: seq<byte>) {
    |q| == |p| && forall i :: 0 <= i < |p| ==> q[i] == p[i] || (p[i] == SLASH && q[i] == 0)
  }

  /** The first byte at or behind `from` that is no slash. */
  method SkipSlashes(path: array<byte>, from: nat, ghost end: nat) returns (start: nat)
    requires TextAt(path[..], from, end)
    ensures from <= start <= end && path[start] != SLASH
    ensures Components(path[start..end]) == Components(path[from..end])
  {
    start := from;
    while path[start] == SLASH
      invariant from <= start <= end
      invariant Components(path[start..end]) == Components(path[from..end])
      decreases end - start
    {
      assert path[start..end][1..] == path[start + 1..end];
      start := start + 1;
    }
  }

  /** Where the token at `start` stops: at a slash or at the end of the text. */
  method TokenEnd(path: array<byte>, start: nat, ghost end: nat) returns (stop: nat)
    requires TextAt(path[..], start, end)
    ensures start <= stop <= end && path[start..stop] == Token(path[start..end])
    ensures stop == end || path[stop] == SLASH
  {
    ghost var s := path[start..end];
    stop := start;
    while path[stop] != 0 && path[stop] != SLASH
      invariant start <= stop <= end && stop - start <= |Token(s)|
      decreases end - stop
    {
      assert path[stop] == s[stop - start];
      stop := stop + 1;
    }
    assert stop < end ==> s[stop - start] == SLASH;
    assert |Token(s)| == stop - start;
    assert path[start..stop] == s[..stop - start];
  }

  /** The next token at or behind `from`. The slash behind it is overwritten by a zero byte, and
      the text behind that is where the next call starts. */
  method Strtok(path: array<byte>, from: nat, ghost end: nat)
    returns (tok: Option<seq<byte>>, rest: nat)
    requires TextAt(path[..], from, end)
    modifies path
    ensures TextAt(path[..], rest, end)
    ensures var cs := Components(old(path[from..end]));
      && (tok.None? <==> cs == [])
      && (tok.Some? ==> tok.value == cs[0] && Components(path[rest..end]) == cs[1..])
    ensures tok.Some? ==> from < rest
    ensures SlashesCut(old(path[..]), path[..])
  {
    hide Token, Components;
    ComponentsOfNothing();
    var start := SkipSlashes(path, from, end);
    if path[start] == 0 {
      assert path[start..end] == [];
      return None, start;
    }
    ghost var s := path[start..end];
    assert s[0] == path[start];
    var stop := TokenEnd(path, start, end);
    tok := Some(path[start..stop]);
    ComponentsFirst(s);
    ghost var behind := path[stop..end];
    assert s[stop - start..] == behind;
    if path[stop] == SLASH {
      ComponentsSkip(behind);
      assert behind[1..] == path[stop + 1..end];
      path[stop] := 0;
      rest := stop + 1;
    } else {
      rest := stop;
    }
  }

  /** What the descriptor buffers hold, one for each of `n` fetches. */
  ghost predicate Buffers(helds: seq<seq<byte>>, n: nat) {
    |helds| == n && forall i :: 0 <= i < n ==> |helds[i]| == GROUP
  }

  /** Every directory on the way can be scanned, whatever the descriptor buffers hold. Where the
      accepted entries have group descriptors, that is one way; an entry without one asks it of all
      that the fetch may deliver, unless it is the last. */
  ghost predicate Walkable(disk: seq<byte>, sb: Superblock, cur: Found, cs: seq<seq<byte>>)
    requires sb.inodesPerGroup > 0 && |cur.inode| == INODE
    decreases |cs|
  {
    cs == [] ||
    (Scannable(disk, cur.inode, 0) &&
     forall held: seq<byte> :: |held| == GROUP ==>
       var next := Lookup(disk, sb, cur.inode, cs[0], held, cur.ino, cur.inode);
       next.ok ==> Walkable(disk, sb, next, cs[1..]))
  }

  /** Resolution is a left fold of directory lookup, cut short by the first failure. */
  ghost function Resolve(disk: seq<byte>, sb: Superblock, cur: Found, cs: seq<seq<byte>>,
                         helds: seq<seq<byte>>): (r: Found)
    requires sb.inodesPerGroup > 0 && |cur.inode| == INODE && Walkable(disk, sb, cur, cs)
    requires Buffers(helds, |cs|)
    ensures |r.inode| == INODE
    decreases |cs|
  {
    if cs == [] then cur
    else
      var next := Lookup(disk, sb, cur.inode, cs[0], helds[0], cur.ino, cur.inode);
      if next.ok then Resolve(disk, sb, next, cs[1..], helds[1..]) else next
  }

  lemma LookupIsStored(disk: seq<byte>, sb: Superblock, dir: seq<byte>, s: seq<byte>,
                       held: seq<byte>, ino0: u32, inode0: seq<byte>)
    requires |dir| == INODE && sb.inodesPerGroup > 0 && Scannable(disk, dir, 0) && |held| == GROUP
    ensures var r := Lookup(disk, sb, dir, s, held, ino0, inode0);
      r.ok && GroupOnDisk(disk, sb, r.ino) ==> InodeAt(disk, sb, r.ino) == Some(r.inode)
  {
    hide Scannable, DirListing, Find, GroupOf, InodeAt, GroupOnDisk;
  }

  /** A success over at least one component ends at the stored inode of the reported number, if that
      number has a group descriptor. */
  lemma {:induction false} ResolvedIsStored(disk: seq<byte>, sb: Superblock, cur: Found,
                                            cs: seq<seq<byte>>, helds: seq<seq<byte>>)
    requires sb.inodesPerGroup > 0 && |cur.inode| == INODE && Walkable(disk, sb, cur, cs)
    requires Buffers(helds, |cs|) && cs != []
    ensures var r := Resolve(disk, sb, cur, cs, helds);
      r.ok && GroupOnDisk(disk, sb, r.ino) ==> InodeAt(disk, sb, r.ino) == Some(r.inode)
    decreases |cs|
  {
    hide InodeAt, GroupOnDisk, Scannable, Lookup, GroupOf;
    LookupIsStored(disk, sb, cur.inode, cs[0], helds[0], cur.ino, cur.inode);
    var next := Lookup(disk, sb, cur.inode, cs[0], helds[0], cur.ino, cur.inode);
    if next.ok && cs[1..] != [] {
      ResolvedIsStored(disk, sb, next, cs[1..], helds[1..]);
    }
  }

  /** The accepted entries of the first `n` components have group descriptors. */
  ghost predicate Settled(disk: seq<byte>, sb: Superblock, cur: Found, cs: seq<seq<byte>>, n: nat)
    requires sb.inodesPerGroup > 0 && |cur.inode| == INODE && Walkable(disk, sb, cur, cs)
    decreases |cs|
  {
    n == 0 || cs == [] ||
    (Deliverable(disk, sb, Find(DirListing(disk, cur.inode, 0), cs[0])) &&
     forall held: seq<byte> :: |held| == GROUP ==>
       var next := Lookup(disk, sb, cur.inode, cs[0], held, cur.ino, cur.inode);
       next.ok ==> Settled(disk, sb, next, cs[1..], n - 1))
  }

  /** What the buffers hold plays no part where every accepted entry has a group descriptor; and no
      part in the number where all but the last have. */
  lemma {:induction false} HeldsIrrelevant(disk: seq<byte>, sb: Superblock, cur: Found,
                                           cs: seq<seq<byte>>, n: nat, helds: seq<seq<byte>>,
                                           helds': seq<seq<byte>>)
    requires sb.inodesPerGroup > 0 && |cur.inode| == INODE && Walkable(disk, sb, cur, cs)
    requires Buffers(helds, |cs|) && Buffers(helds', |cs|) && Settled(disk, sb, cur, cs, n)
    ensures n >= |cs| ==> Resolve(disk, sb, cur, cs, helds') == Resolve(disk, sb, cur, cs, helds)
    ensures n + 1 >= |cs| ==>
      Resolve(disk, sb, cur, cs, helds').ino == Resolve(disk, sb, cur, cs, helds).ino
    decreases |cs|
  {
    hide Lookup, Find, DirListing, Deliverable, Scannable;
    if cs != [] {
      LookupHelds(disk, sb, cur.inode, cs[0], helds[0], helds'[0], cur.ino, cur.inode);
      var next := Lookup(disk, sb, cur.inode, cs[0], helds[0], cur.ino, cur.inode);
      if n > 0 {
        if next.ok {
          HeldsIrrelevant(disk, sb, next, cs[1..], n - 1, helds[1..], helds'[1..]);
        }
      } else if |cs| == 1 {
        assert cs[1..] == [];
      }
    }
  }

  lemma LookupHelds(disk: seq<byte>, sb: Superblock, dir: seq<byte>, s: seq<byte>,
                    held: seq<byte>, held': seq<byte>, ino0: u32, inode0: seq<byte>)
    requires |dir| == INODE && sb.inodesPerGroup > 0 && Scannable(disk, dir, 0)
    requires |held| == GROUP == |held'|
    ensures var r, r' := Lookup(disk, sb, dir, s, held, ino0, inode0),
                         Lookup(disk, sb, dir, s, held', ino0, inode0);
      && r'.ino == r.ino
      && (Deliverable(disk, sb, Find(DirListing(disk, dir, 0), s)) ==> r' == r)
  {
    hide Scannable, DirListing, Find, GroupOf, InodeAt, GroupOnDisk, PosInTable;
    var e := Find(DirListing(disk, dir, 0), s);
    if Deliverable(disk, sb, e) {
      HeldIrrelevant(disk, sb, e, held, held', ino0, inode0);
    }
  }

  /** One step of a resolution: the accepted entry and what it delivered. */
  datatype Hop = Hop(entry: Option<Dirent>, found: Found)

  /** The steps of a resolution up to its first failure, with the lookup of the code or with one
      that accepts exact names in use only. */
  ghost function Hops(disk: seq<byte>, sb: Superblock, cur: Found, cs: seq<seq<byte>>,
                      helds: seq<seq<byte>>, exact: bool): seq<Hop>
    requires sb.inodesPerGroup > 0 && |cur.inode| == INODE && Buffers(helds, |cs|)
    decreases |cs|
  {
    if cs == [] || !Scannable(disk, cur.inode, 0) then []
    else
      var es := DirListing(disk, cur.inode, 0);
      var e := if exact then FindExact(es, cs[0]) else Find(es, cs[0]);
      var next := Deliver(disk, sb, e, helds[0], cur.ino, cur.inode);
      [Hop(e, next)] + if next.ok then Hops(disk, sb, next, cs[1..], helds[1..], exact) else []
  }

  /** Neither a component nor a name in the directories on the way holds a zero byte. */
  ghost predicate PlainWay(disk: seq<byte>, sb: Superblock, cur: Found, cs: seq<seq<byte>>,
                           helds: seq<seq<byte>>)
    requires sb.inodesPerGroup > 0 && |cur.inode| == INODE && Walkable(disk, sb, cur, cs)
    requires Buffers(helds, |cs|)
    decreases |cs|
  {
    cs == [] ||
    (0 !in cs[0] && PlainNames(DirListing(disk, cur.inode, 0)) &&
     var next := Lookup(disk, sb, cur.inode, cs[0], helds[0], cur.ino, cur.inode);
     next.ok ==> PlainWay(disk, sb, next, cs[1..], helds[1..]))
  }

  /** No component is shadowed in the directory it is looked up in. */
  ghost predicate Unshadowed(disk: seq<byte>, sb: Superblock, cur: Found, cs: seq<seq<byte>>,
                             helds: seq<seq<byte>>)
    requires sb.inodesPerGroup > 0 && |cur.inode| == INODE && Walkable(disk, sb, cur, cs)
    requires Buffers(helds, |cs|)
    decreases |cs|
  {
    cs == [] ||
    (!Shadowed(DirListing(disk, cur.inode, 0), cs[0]) &&
     var next := Lookup(disk, sb, cur.inode, cs[0], helds[0], cur.ino, cur.inode);
     next.ok ==> Unshadowed(disk, sb, next, cs[1..], helds[1..]))
  }

  /** The resolver ends where its last step ends. */
  lemma {:induction false} ResolveEndsHops(disk: seq<byte>, sb: Superblock, cur: Found,
                                           cs: seq<seq<byte>>, helds: seq<seq<byte>>)
    requires sb.inodesPerGroup > 0 && |cur.inode| == INODE && Walkable(disk, sb, cur, cs)
    requires Buffers(helds, |cs|)
    ensures var hops := Hops(disk, sb, cur, cs, helds, false);
      Resolve(disk, sb, cur, cs, helds) == if hops == [] then cur else hops[|hops| - 1].found
    decreases |cs|
  {
    hide InodeAt, GroupOnDisk, Scannable, Find, FindExact, GroupOf, Deliver, DirListing, Fetched;
    if cs != [] {
      var next := Lookup(disk, sb, cur.inode, cs[0], helds[0], cur.ino, cur.inode);
      if next.ok {
        ResolveEndsHops(disk, sb, next, cs[1..], helds[1..]);
      }
    }
  }

  /** The resolver takes, at every component, the entry in use of exactly that name if and only if no
      component is shadowed in the directory it is looked up in. */
  lemma {:induction false} ResolutionExact(disk: seq<byte>, sb: Superblock, cur: Found,
                                           cs: seq<seq<byte>>, helds: seq<seq<byte>>)
    requires sb.inodesPerGroup > 0 && |cur.inode| == INODE && Walkable(disk, sb, cur, cs)
    requires Buffers(helds, |cs|) && PlainWay(disk, sb, cur, cs, helds)
    ensures Hops(disk, sb, cur, cs, helds, false) == Hops(disk, sb, cur, cs, helds, true)
      <==> Unshadowed(disk, sb, cur, cs, helds)
    decreases |cs|
  {
    hide InodeAt, GroupOnDisk, Scannable, Find, FindExact, GroupOf, Deliver, Shadowed, PlainNames;
    if cs != [] {
      var es := DirListing(disk, cur.inode, 0);
      FindIsExact(es, cs[0]);
      var next := Lookup(disk, sb, cur.inode, cs[0], helds[0], cur.ino, cur.inode);
      var hops, exact := Hops(disk, sb, cur, cs, helds, false), Hops(disk, sb, cur, cs, helds, true);
      assert hops[0] == Hop(Find(es, cs[0]), next) && exact[0].entry == FindExact(es, cs[0]);
      if !Shadowed(es, cs[0]) && next.ok {
        ResolutionExact(disk, sb, next, cs[1..], helds[1..]);
        assert hops[1..] == Hops(disk, sb, next, cs[1..], helds[1..], false);
        assert exact[1..] == Hops(disk, sb, next, cs[1..], helds[1..], true);
      }
    }
  }

  /** The number the fold starts with affects neither success nor the inode, nor whether the way is
      walkable and settled. */
  lemma {:induction false} StartNumberIrrelevant(disk: seq<byte>, sb: Superblock, cur: Found,
                                                 ino: u32, cs: seq<seq<byte>>)
    requires sb.inodesPerGroup > 0 && |cur.inode| == INODE && Walkable(disk, sb, cur, cs)
    ensures Walkable(disk, sb, cur.(ino := ino), cs)
    ensures forall n: nat :: Settled(disk, sb, cur, cs, n) ==> Settled(disk, sb, cur.(ino := ino), cs, n)
    ensures forall helds :: Buffers(helds, |cs|) ==>
      var r, r' := Resolve(disk, sb, cur, cs, helds), Resolve(disk, sb, cur.(ino := ino), cs, helds);
      r'.ok == r.ok && r'.inode == r.inode
  {
    hide GroupOnDisk, Scannable, Find, GroupOf, Fetched;
    if cs != [] {
      forall held: seq<byte> | |held| == GROUP
        ensures var next := Lookup(disk, sb, cur.inode, cs[0], held, cur.ino, cur.inode);
          var next' := Lookup(disk, sb, cur.inode, cs[0], held, ino, cur.inode);
          next'.ok == next.ok && next'.inode == next.inode && (next.ok ==> next' == next)
      {
      }
    }
  }

  /** From the root, with the caller's number and inode as they were before the call. */
  ghost predicate Resolvable(disk: seq<byte>, sb: Superblock, cs: seq<seq<byte>>) {
    sb.inodesPerGroup > 0 &&
    forall held: seq<byte> :: |held| == GROUP ==>
      var root := Fetched(disk, sb, ROOT, held);
      root.Some? ==> Walkable(disk, sb, Found(true, 0, root.value), cs)
  }

  ghost function FromRoot(disk: seq<byte>, sb: Superblock, cs: seq<seq<byte>>,
                          ino0: u32, inode0: seq<byte>, helds: seq<seq<byte>>): (r: Found)
    requires Resolvable(disk, sb, cs) && |inode0| == INODE && Buffers(helds, |cs| + 1)
    ensures |r.inode| == INODE
  {
    var root := Fetched(disk, sb, ROOT, helds[0]);
    if root.None? then Found(false, ino0, inode0)
    else
      StartNumberIrrelevant(disk, sb, Found(true, 0, root.value), ino0, cs);
      Resolve(disk, sb, Found(true, ino0, root.value), cs, helds[1..])
  }

  /** The root and the accepted entries of the first `n` components have group descriptors. */
  ghost predicate SettledFromRoot(disk: seq<byte>, sb: Superblock, cs: seq<seq<byte>>, n: nat)
    requires Resolvable(disk, sb, cs)
  {
    && GroupOnDisk(disk, sb, ROOT)
    && var root := InodeAt(disk, sb, ROOT);
    root.Some? ==> (Walkable(disk, sb, Found(true, 0, root.value), cs)
                    && Settled(disk, sb, Found(true, 0, root.value), cs, n))
  }

  lemma RootHeldsIrrelevant(disk: seq<byte>, sb: Superblock, cs: seq<seq<byte>>, n: nat,
                            ino0: u32, inode0: seq<byte>, helds: seq<seq<byte>>,
                            helds': seq<seq<byte>>)
    requires Resolvable(disk, sb, cs) && |inode0| == INODE && SettledFromRoot(disk, sb, cs, n)
    requires Buffers(helds, |cs| + 1) && Buffers(helds', |cs| + 1)
    ensures n >= |cs| ==>
      FromRoot(disk, sb, cs, ino0, inode0, helds') == FromRoot(disk, sb, cs, ino0, inode0, helds)
    ensures n + 1 >= |cs| ==>
      FromRoot(disk, sb, cs, ino0, inode0, helds').ino == FromRoot(disk, sb, cs, ino0, inode0, helds).ino
  {
    hide InodeAt, GroupOnDisk, Walkable, Resolve, GroupOf, Settled;
    var root := Fetched(disk, sb, ROOT, helds[0]);
    assert root == Fetched(disk, sb, ROOT, helds'[0]) == InodeAt(disk, sb, ROOT);
    if root.Some? {
      StartNumberIrrelevant(disk, sb, Found(true, 0, root.value), ino0, cs);
      HeldsIrrelevant(disk, sb, Found(true, ino0, root.value), cs, n, helds[1..], helds'[1..]);
    }
  }

  /** The two resolvers agree: with the same buffers, or on a way where the buffers play no part,
      they succeed on the same paths, and for a path with a component the inode stored under the
      number the one reports is the inode the other delivers. */
  lemma ResolversAgree(disk: seq<byte>, sb: Superblock, cs: seq<seq<byte>>,
                       ino0: u32, ino1: u32, inode0: seq<byte>, inode1: seq<byte>,
                       helds0: seq<seq<byte>>, helds1: seq<seq<byte>>)
    requires Resolvable(disk, sb, cs) && |inode0| == INODE == |inode1|
    requires Buffers(helds0, |cs| + 1) && Buffers(helds1, |cs| + 1)
    requires helds0 == helds1 || SettledFromRoot(disk, sb, cs, |cs|)
    ensures var byNumber := FromRoot(disk, sb, cs, ino0, inode0, helds0);
      var byInode := FromRoot(disk, sb, cs, ino1, inode1, helds1);
      && byNumber.ok == byInode.ok && (byNumber.ok ==> byNumber.inode == byInode.inode)
      && (byNumber.ok && cs != [] && GroupOnDisk(disk, sb, byNumber.ino) ==>
            InodeAt(disk, sb, byNumber.ino) == Some(byInode.inode))
  {
    if helds0 != helds1 {
      RootHeldsIrrelevant(disk, sb, cs, |cs|, ino1, inode1, helds0, helds1);
    }
    hide InodeAt, GroupOnDisk, Walkable, Resolve, GroupOf, SettledFromRoot, Fetched;
    var root := Fetched(disk, sb, ROOT, helds0[0]);
    if root.Some? {
      var start := Found(true, 0, root.value);
      StartNumberIrrelevant(disk, sb, start, ino0, cs);
      StartNumberIrrelevant(disk, sb, start, ino1, cs);
      if cs != [] {
        ResolvedIsStored(disk, sb, start.(ino := ino0), cs, helds0[1..]);
      }
    }
  }

  /** A directory block with an unused entry of inode number 0 and, behind it, an entry "a". */
  function SampleBlock(): (block: seq<byte>)
    ensures |block| == BLOCK
  {
    Stored(Dirent(0, [98]), 12, 0) + Stored(Dirent(1, [97]), 1012, 0)
  }

  lemma SampleListing()
    ensures Tiled(SampleBlock(), 0)
    ensures Listing(SampleBlock(), 0) == [Dirent(0, [98]), Dirent(1, [97])]
  {
    hide Stored, RecLen, EntryIno, Listing, Tiled;
    var unused, a := Stored(Dirent(0, [98]), 12, 0), Stored(Dirent(1, [97]), 1012, 0);
    var block := unused + a;
    assert block == [] + unused + a && block == unused + a + [];
    StoredIsRead([], Dirent(0, [98]), 12, 0, a);
    StoredIsRead(unused, Dirent(1, [97]), 1012, 0, []);
    NothingListed(block, []);
    ListedFirst(block, 12, 1012);
    ListedFirst(block, 0, 12);
  }

  /** The sample volume, with that block as the one block of the root directory. */
  ghost function DirectoryDisk(): (disk: seq<byte>)
    ensures |disk| == 5120
  {
    SampleDisk()[..4096] + SampleBlock()
  }

  lemma DirectoryRoot()
    ensures var disk, sb := DirectoryDisk(), Superblock(2);
      && GroupOnDisk(disk, sb, ROOT) && InodeAt(disk, sb, ROOT) == Some(SampleDisk()[3328..3584])
      && GroupOnDisk(disk, sb, 1) && InodeAt(disk, sb, 1) == Some(SampleDisk()[3072..3328])
  {
    hide SampleDisk, SampleBlock, TableOf;
    var disk, sb := DirectoryDisk(), Superblock(2);
    SampleFields();
    assert GroupOf(sb, ROOT) == 0 == GroupOf(sb, 1);
    assert IndexInGroup(sb, ROOT) == 1 && IndexInGroup(sb, 1) == 0;
    assert GroupAt(disk, 0) == SampleDisk()[2048..2080];
    assert disk[3328..3584] == SampleDisk()[3328..3584];
    assert disk[3072..3328] == SampleDisk()[3072..3328];
  }

  /** There are disks with an unused entry on which a path resolves: "/a" leads to inode 1, whatever
      the buffers hold. */
  lemma ResolvableExample(helds: seq<seq<byte>>)
    requires Buffers(helds, 2)
    ensures var disk, sb := DirectoryDisk(), Superblock(2);
      && Components([SLASH, 97]) == [[97]] && Resolvable(disk, sb, [[97]])
      && FromRoot(disk, sb, [[97]], 0, seq(INODE, _ => 0), helds)
         == Found(true, 1, SampleDisk()[3072..3328])
  {
    var disk, sb := DirectoryDisk(), Superblock(2);
    ComponentsJoined([[97]]);
    DirectoryRoot();
    RootListing();
    hide SampleDisk, DirectoryDisk, InodeAt, GroupOnDisk, GroupOf, DirListing, Scannable, Fetched;
    var root := Found(true, 0, InodeAt(disk, sb, ROOT).value);
    var a := InodeAt(disk, sb, 1).value;
    var es := [Dirent(0, [98]), Dirent(1, [97])];
    assert es[1..] == [Dirent(1, [97])];
    assert StrncmpEqual([97], [97]) by { assert |[97][1..]| == 0; }
    assert Find(es, [97]) == Some(Dirent(1, [97]));
    forall held: seq<byte> | |held| == GROUP
      ensures Fetched(disk, sb, ROOT, held) == Some(root.inode)
      ensures Lookup(disk, sb, root.inode, [97], held, 0, root.inode) == Found(true, 1, a)
    {
    }
    assert |[[97]][1..]| == 0;
    assert Walkable(disk, sb, Found(true, 1, a), []);
    assert Walkable(disk, sb, root, [[97]]);
  }

  /** A directory of one block lists what that block lists. */
  lemma OneBlockListing(disk: seq<byte>, dir: seq<byte>)
    requires |dir| == INODE && Pointer(dir, 0) != 0 && Pointer(dir, 1) == 0
    requires BlockPos(Pointer(dir, 0)) + BLOCK <= |disk| && Tiled(BlockAt(disk, Pointer(dir, 0)), 0)
    ensures Scannable(disk, dir, 0)
    ensures DirListing(disk, dir, 0) == Listing(BlockAt(disk, Pointer(dir, 0)), 0)
  {
    hide Pointer, BlockAt, Tiled, Listing, BlockPos;
    assert Scannable(disk, dir, 1) && DirListing(disk, dir, 1) == [];
  }

  lemma RootPointers()
    ensures Pointer(SampleDisk()[3328..3584], 0) == 4 && Pointer(SampleDisk()[3328..3584], 1) == 0
  {
    SamplePointer();
    var disk := SampleDisk();
    WindowSlice(disk, 3328, INODE, 44, 4);
    assert disk[3372..3376] == [0, 0, 0, 0];
    SmallField(0);
  }

  lemma RootListing()
    ensures var root := SampleDisk()[3328..3584];
      && Scannable(DirectoryDisk(), root, 0)
      && DirListing(DirectoryDisk(), root, 0) == [Dirent(0, [98]), Dirent(1, [97])]
  {
    hide SampleDisk, SampleBlock, Pointer, Tiled, Listing, Scannable, DirListing;
    var disk, root := DirectoryDisk(), SampleDisk()[3328..3584];
    RootPointers();
    SampleListing();
    assert disk[4096..5120] == SampleBlock();
    OneBlockListing(disk, root);
  }

  /** With `done` for the components behind, the rest of the way from `cur` ends where the whole way
      from `start` does. */
  ghost predicate Leads(disk: seq<byte>, sb: Superblock, start: Found, all: seq<seq<byte>>,
                        done: seq<seq<byte>>, cur: Found, cs: seq<seq<byte>>)
  {
    && sb.inodesPerGroup > 0 && |start.inode| == INODE == |cur.inode|
    && Walkable(disk, sb, start, all) && Walkable(disk, sb, cur, cs)
    && Buffers(done, |done|) && |done| + |cs| == |all|
    && forall rest :: Buffers(rest, |cs|) ==>
         Resolve(disk, sb, start, all, done + rest) == Resolve(disk, sb, cur, cs, rest)
  }

  lemma LeadsStarts(disk: seq<byte>, sb: Superblock, start: Found, all: seq<seq<byte>>)
    requires sb.inodesPerGroup > 0 && |start.inode| == INODE && Walkable(disk, sb, start, all)
    ensures Leads(disk, sb, start, all, [], start, all)
  {
    hide Walkable, Resolve;
    forall rest | Buffers(rest, |all|)
      ensures Resolve(disk, sb, start, all, [] + rest) == Resolve(disk, sb, start, all, rest)
    {
      assert [] + rest == rest;
    }
  }

  /** After a step that succeeds the way goes on from what it delivered; one that fails ends it. */
  lemma LeadsStep(disk: seq<byte>, sb: Superblock, start: Found, all: seq<seq<byte>>,
                  done: seq<seq<byte>>, cur: Found, cs: seq<seq<byte>>, held: seq<byte>)
    requires Leads(disk, sb, start, all, done, cur, cs) && cs != [] && |held| == GROUP
    ensures Scannable(disk, cur.inode, 0)
    ensures var next := Lookup(disk, sb, cur.inode, cs[0], held, cur.ino, cur.inode);
      if next.ok then Leads(disk, sb, start, all, done + [held], next, cs[1..])
      else forall rest :: Buffers(rest, |cs| - 1) ==>
        Buffers(done + [held] + rest, |all|)
        && Resolve(disk, sb, start, all, done + [held] + rest) == next
  {
    hide Scannable, Lookup;
    var next := Lookup(disk, sb, cur.inode, cs[0], held, cur.ino, cur.inode);
    forall rest | Buffers(rest, |cs| - 1)
      ensures Buffers(done + [held] + rest, |all|)
      ensures Resolve(disk, sb, start, all, done + [held] + rest)
           == if next.ok then Resolve(disk, sb, next, cs[1..], rest) else next
    {
      assert done + [held] + rest == done + ([held] + rest);
      assert Buffers([held] + rest, |cs|);
      assert ([held] + rest)[1..] == rest;
    }
  }

  function Blank(n: nat): (r: seq<seq<byte>>)
    ensures |r| == n && forall i :: 0 <= i < n ==> |r[i]| == GROUP
  {
    seq(n, _ => seq(GROUP, _ => 0))
  }

  /** The token loop of both resolvers: each token is looked up in a copy of the last inode. */
  method Walk(driver: BlkDriver, sb: Superblock, path: array<byte>, inode: array<byte>, ino0: u32,
              ghost end: nat) returns (ok: bool, ino: u32, ghost helds: seq<seq<byte>>)
    requires driver.Valid() && sb.inodesPerGroup > 0 && !driver.device.faulty
    requires inode.Length == INODE && path != inode && {path, inode} !! driver.Repr()
    requires TextAt(path[..], 0, end)
    requires Walkable(driver.device.disk, sb, Found(true, ino0, inode[..]), Components(path[..end]))
    modifies driver.Repr(), path, inode
    ensures driver.Valid() && driver.device.disk == old(driver.device.disk)
    ensures Buffers(helds, |Components(old(path[..end]))|) && SlashesCut(old(path[..]), path[..])
    ensures Found(ok, ino, inode[..])
         == Resolve(driver.device.disk, sb, Found(true, ino0, old(inode[..])), Components(old(path[..end])), helds)
  {
    hide Scannable, Lookup, Components, GroupOf, Walkable, Resolve, Leads, Find, DirListing;
    hide GroupOnDisk, Ext2.InodeFetched;
    ghost var disk := driver.device.disk;
    assert path[0..end] == path[..end];
    ghost var start, all := Found(true, ino0, inode[..]), Components(path[..end]);
    LeadsStarts(disk, sb, start, all);
    ino := ino0;
    helds := [];
    var tok, rest := Strtok(path, 0, end);
    ghost var cs := all;
    while tok.Some?
      invariant driver.Valid() && driver.device.disk == disk
      invariant TextAt(path[..], rest, end) && SlashesCut(old(path[..]), path[..])
      invariant tok.None? <==> cs == []
      invariant tok.Some? ==> tok.value == cs[0] && Components(path[rest..end]) == cs[1..]
      invariant Leads(disk, sb, start, all, helds, Found(true, ino, inode[..]), cs)
      decreases |cs|
    {
      var current := new byte[INODE];
      CopyInode(inode, current);
      ghost var g: bool, held: seq<byte>;
      ghost var cur := Found(true, ino, inode[..]);
      LeadsStep(disk, sb, start, all, helds, cur, cs, Blank(1)[0]);
      ok, ino, g, held := InodeFromDir(driver, sb, tok.value, current, inode, ino);
      LeadsStep(disk, sb, start, all, helds, cur, cs, held);
      if !ok {
        helds := helds + [held] + Blank(|cs| - 1);
        return false, ino, helds;
      }
      helds := helds + [held];
      cs := cs[1..];
      tok, rest := Strtok(path, rest, end);
    }
    LeadsEnds(disk, sb, start, all, helds, Found(true, ino, inode[..]));
    return true, ino, helds;
  }

  lemma LeadsEnds(disk: seq<byte>, sb: Superblock, start: Found, all: seq<seq<byte>>,
                  done: seq<seq<byte>>, cur: Found)
    requires Leads(disk, sb, start, all, done, cur, [])
    ensures sb.inodesPerGroup > 0 && |start.inode| == INODE && Walkable(disk, sb, start, all)
    ensures Buffers(done, |all|) && Resolve(disk, sb, start, all, done) == cur
  {
    assert Buffers([], 0) && done + [] == done;
    assert Resolve(disk, sb, start, all, done + []) == Resolve(disk, sb, cur, [], []);
  }

  method CopyInode(inode: array<byte>, copy: array<byte>)
    requires inode.Length == INODE == copy.Length
    modifies copy
    ensures inode != copy ==> copy[..] == inode[..]
  {
    for i := 0 to INODE
      invariant inode != copy ==> copy[..i] == inode[..i]
    {
      copy[i] := inode[i];
    }
  }

  /** The number of the file a path names. */
  method InoFromPath(driver: BlkDriver, sb: Superblock, path: array<byte>, ino0: u32,
                     ghost end: nat) returns (ok: bool, ino: u32, ghost helds: seq<seq<byte>>)
    requires driver.Valid() && !driver.device.faulty && path !in driver.Repr()
    requires TextAt(path[..], 0, end)
    requires Resolvable(driver.device.disk, sb, Components(path[..end]))
    modifies driver.Repr(), path
    ensures driver.Valid() && driver.device.disk == old(driver.device.disk)
    ensures Buffers(helds, |Components(old(path[..end]))| + 1) && SlashesCut(old(path[..]), path[..])
    ensures var r := FromRoot(driver.device.disk, sb, Components(old(path[..end])), ino0,
                              seq(INODE, _ => 0), helds);
      ok == r.ok && ino == r.ino
  {
    hide InodeAt, Walkable, Resolve, GroupOf, Components, InodePos, Fetched, PosInTable;
    var traverse := new byte[INODE](_ => 0);
    assert traverse[..] == seq(INODE, _ => 0);
    ghost var cs := Components(path[..end]);
    ghost var g: bool, held: seq<byte>;
    ok, g, held := Ext2.InodeFromIno(driver, sb, traverse, ROOT);
    if !ok {
      return false, ino0, [held] + Blank(|cs|);
    }
    StartNumberIrrelevant(driver.device.disk, sb, Found(true, 0, traverse[..]), ino0, cs);
    ok, ino, helds := Walk(driver, sb, path, traverse, ino0, end);
    helds := [held] + helds;
  }

  /** The inode of the file a path names. */
  method InodeFromPath(driver: BlkDriver, sb: Superblock, path: array<byte>, inode: array<byte>,
                       ghost end: nat) returns (ok: bool, ghost helds: seq<seq<byte>>)
    requires driver.Valid() && !driver.device.faulty && path != inode
    requires inode.Length == INODE && {path, inode} !! driver.Repr()
    requires TextAt(path[..], 0, end)
    requires Resolvable(driver.device.disk, sb, Components(path[..end]))
    modifies driver.Repr(), path, inode
    ensures driver.Valid() && driver.device.disk == old(driver.device.disk)
    ensures Buffers(helds, |Components(old(path[..end]))| + 1) && SlashesCut(old(path[..]), path[..])
    ensures var r := FromRoot(driver.device.disk, sb, Components(old(path[..end])), 0,
                              old(inode[..]), helds);
      ok == r.ok && inode[..] == r.inode
  {
    hide InodeAt, Walkable, Resolve, GroupOf, Components, InodePos, Fetched, PosInTable;
    ghost var cs := Components(path[..end]);
    ghost var g: bool, held: seq<byte>;
    ok, g, held := Ext2.InodeFromIno(driver, sb, inode, ROOT);
    if !ok {
      return false, [held] + Blank(|cs|);
    }
    var ino;
    ok, ino, helds := Walk(driver, sb, path, inode, 0, end);
    helds := [held] + helds;
  }
}

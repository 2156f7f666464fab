/** Single transfers, calls and runs of calls on a device that may fail any request, and what the
    same transfers do on a device that does not. */
module Outages {
  import opened Words
  import opened Bytes
  import opened Virtio
  import opened Ext2Disk
  import Ext2
  import opened Volumes
  import opened Faults
  import opened Paths
  import opened Descriptors

  // ----- calls and runs, as relations on states

  /** What a call may do when its positions were right and its stamp was stored: the table moves as
      it would without failures, a read delivers what it counts, and a write changes no file but
      its own, and that one as `Written` says. */
  ghost predicate Suffered(s: State, c: Call, s': State, t: Transfer, reply: Reply)
    requires Meant(s, c) && !c.Open?
  {
    if c.Read? && IsOpen(s.fds, c.fd) && c.size > 0 then
      var slot := s.fds[c.fd];
      var f := s.files[slot.ino];
      && s' == s.(files := s.files[slot.ino := f.(atime := Seconds(c.clock))])
      && -1 <= t.count <= c.size
      && reply == Reply(t.count, if t.count > 0 then f.bytes[slot.pos..slot.pos + t.count] else [])
    else if c.Write? && IsOpen(s.fds, c.fd) then
      var slot := s.fds[c.fd];
      var f := s.files[slot.ino];
      && slot.ino in s'.files
      && var f' := s'.files[slot.ino];
      && s' == s.(files := s.files[slot.ino := f.(bytes := f'.bytes, mtime := Seconds(c.clock))])
      && Written(f.bytes, f'.bytes, slot.pos, c.data, t.count, t.arrived)
      && reply == Reply(t.count, [])
    else (s', reply) == Meaning(s, c)
  }

  /** The same files with the same lengths. */
  predicate SameShape(files: map<u32, File>, files': map<u32, File>) {
    files'.Keys == files.Keys && forall ino :: ino in files ==> |files'[ino].bytes| == |files[ino].bytes|
  }

  /** A call fits a state as far as its table and the shape of its files say. */
  lemma MeantByShape(s: State, s': State, c: Call)
    requires s'.fds == s.fds && SameShape(s.files, s'.files) && !c.Open?
    ensures Meant(s, c) <==> Meant(s', c)
    ensures Meant(s, c) ==>
      && Meaning(s', c).0.fds == Meaning(s, c).0.fds
      && SameShape(Meaning(s, c).0.files, Meaning(s', c).0.files)
  {
    hide Splice, Seconds;
  }

  ghost predicate OpensNothing(cs: seq<Call>) {
    forall c :: c in cs ==> !c.Open?
  }

  lemma {:induction false} RunMeantByShape(s: State, s': State, cs: seq<Call>)
    requires s'.fds == s.fds && SameShape(s.files, s'.files) && OpensNothing(cs) && RunMeant(s, cs)
    ensures RunMeant(s', cs)
    ensures RunMeaning(s', cs).0.fds == RunMeaning(s, cs).0.fds
    ensures forall ino: u32 :: RunAvoids(s, cs, ino) ==> RunAvoids(s', cs, ino)
    decreases |cs|
  {
    hide Meant, Meaning, SameShape;
    if cs != [] {
      assert cs[0] in cs;
      MeantByShape(s, s', cs[0]);
      assert OpensNothing(cs[1..]);
      RunMeantByShape(Meaning(s, cs[0]).0, Meaning(s', cs[0]).0, cs[1..]);
    }
  }

  /** A call on any device keeps the shape, and the bytes of a file it does not write to. */
  lemma SufferedKeeps(s: State, c: Call, s': State, t: Transfer, reply: Reply)
    requires Meant(s, c) && !c.Open? && Suffered(s, c, s', t, reply)
    ensures s'.fds == Meaning(s, c).0.fds
    ensures SameShape(s.files, s'.files) && SameShape(Meaning(s, c).0.files, s'.files)
    ensures forall ino :: ino in s.files && !Writes(s.fds, c, ino) ==>
      s'.files[ino].bytes == s.files[ino].bytes
  {
    hide SameShape, Meaning, Meant, Written;
    SufferedTable(s, c, s', t, reply);
    SufferedFiles(s, c, s', t, reply);
    ShapeOfMeaning(s, c);
    ShapeChain(Meaning(s, c).0.files, s.files, s'.files);
  }

  lemma SufferedTable(s: State, c: Call, s': State, t: Transfer, reply: Reply)
    requires Meant(s, c) && !c.Open? && Suffered(s, c, s', t, reply)
    ensures s'.fds == Meaning(s, c).0.fds
  {
    hide Splice, Seconds, Written, SeekTo, ToInt32;
  }

  lemma SufferedFiles(s: State, c: Call, s': State, t: Transfer, reply: Reply)
    requires Meant(s, c) && !c.Open? && Suffered(s, c, s', t, reply)
    ensures SameShape(s.files, s'.files)
    ensures forall ino :: ino in s.files && !Writes(s.fds, c, ino) ==>
      s'.files[ino].bytes == s.files[ino].bytes
  {
    hide Splice, Seconds, Written, SeekTo, ToInt32;
    if c.Write? && IsOpen(s.fds, c.fd) {
      var slot := s.fds[c.fd];
      WrittenLength(s.files[slot.ino].bytes, s'.files[slot.ino].bytes, slot.pos, c.data, t);
    }
  }

  lemma WrittenLength(bytes: seq<byte>, bytes': seq<byte>, off: nat, data: seq<byte>, t: Transfer)
    requires off + |data| <= |bytes| && Written(bytes, bytes', off, data, t.count, t.arrived)
    ensures |bytes'| == |bytes|
  {
  }

  /** A run in which every call was suffered so, state after state. */
  ghost predicate RunSuffered(s: State, cs: seq<Call>, s': State, ts: seq<Transfer>,
                              replies: seq<Reply>)
    requires RunMeant(s, cs) && OpensNothing(cs) && |ts| == |cs| == |replies|
    decreases |cs|
  {
    if cs == [] then s' == s
    else
      assert cs[0] in cs;
      exists s1: State :: SufferedFirst(s, cs, s1, ts[0], replies[0])
                          && RunSuffered(s1, cs[1..], s', ts[1..], replies[1..])
  }

  ghost predicate SufferedFirst(s: State, cs: seq<Call>, s1: State, t: Transfer, reply: Reply)
    requires RunMeant(s, cs) && OpensNothing(cs) && cs != []
    ensures SufferedFirst(s, cs, s1, t, reply) ==> RunMeant(s1, cs[1..]) && OpensNothing(cs[1..])
  {
    assert cs[0] in cs;
    Suffered(s, cs[0], s1, t, reply)
    && (SufferedKeeps(s, cs[0], s1, t, reply);
        RunMeantByShape(Meaning(s, cs[0]).0, s1, cs[1..]); true)
  }

  /** Over every run on any device, the bytes of a file that no call writes to stay as they were. */
  lemma {:induction false} UntouchedOnAnyDevice(s: State, cs: seq<Call>, s': State,
                                                ts: seq<Transfer>, replies: seq<Reply>, ino: u32)
    requires RunMeant(s, cs) && OpensNothing(cs) && |ts| == |cs| == |replies|
    requires RunSuffered(s, cs, s', ts, replies)
    requires ino in s.files && RunAvoids(s, cs, ino)
    ensures SameShape(s.files, s'.files) && s'.files[ino].bytes == s.files[ino].bytes
    decreases |cs|
  {
    hide Meant, Meaning, Suffered;
    if cs != [] {
      var s1: State :| SufferedFirst(s, cs, s1, ts[0], replies[0])
        && RunSuffered(s1, cs[1..], s', ts[1..], replies[1..]);
      assert cs[0] in cs && OpensNothing(cs[1..]);
      SufferedKeeps(s, cs[0], s1, ts[0], replies[0]);
      RunMeantByShape(Meaning(s, cs[0]).0, s1, cs[1..]);
      UntouchedOnAnyDevice(s1, cs[1..], s', ts[1..], replies[1..], ino);
    }
  }

  /** A run that goes on by one more call. */
  lemma {:induction false} RunSufferedMore(s: State, cs: seq<Call>, now: State, ts: seq<Transfer>,
                                           replies: seq<Reply>, c: Call, s': State, t: Transfer,
                                           reply: Reply)
    requires RunMeant(s, cs) && OpensNothing(cs) && |ts| == |cs| == |replies|
    requires RunSuffered(s, cs, now, ts, replies)
    requires !c.Open? && Meant(now, c) && Suffered(now, c, s', t, reply)
    ensures RunMeant(s, cs + [c]) && OpensNothing(cs + [c])
    ensures RunSuffered(s, cs + [c], s', ts + [t], replies + [reply])
    decreases |cs|
  {
    hide Meant, Meaning, Suffered;
    if cs == [] {
      assert cs + [c] == [c] && [c][1..] == [] && ts + [t] == [t] && replies + [reply] == [reply];
      assert RunMeant(Meaning(s, c).0, []) && RunMeant(s, [c]) && OpensNothing([c]);
      assert SufferedFirst(s, [c], s', t, reply) && RunSuffered(s', [], s', [], []);
      assert [t][1..] == [] && [reply][1..] == [];
    } else {
      assert cs[0] in cs;
      var s1: State :| SufferedFirst(s, cs, s1, ts[0], replies[0])
        && RunSuffered(s1, cs[1..], now, ts[1..], replies[1..]);
      RunSufferedMore(s1, cs[1..], now, ts[1..], replies[1..], c, s', t, reply);
      assert (cs + [c])[1..] == cs[1..] + [c] && (ts + [t])[1..] == ts[1..] + [t];
      assert (replies + [reply])[1..] == replies[1..] + [reply];
      SufferedKeeps(s, cs[0], s1, ts[0], replies[0]);
      assert OpensNothing((cs + [c])[1..]);
      RunMeantByShape(s1, Meaning(s, cs[0]).0, (cs + [c])[1..]);
      assert SufferedFirst(s, cs + [c], s1, ts[0], replies[0]);
    }
  }

  // ----- one transfer

  /** The disk records a volume, and the slot names one of its files with room for `n` bytes. */
  ghost predicate OnVolume(v: Volume, sb: Superblock, disk: seq<byte>, slot: Slot, n: nat) {
    v.sb == sb && Files(v, disk).Some? && InFile(Files(v, disk).value, slot, n)
  }

  /** What a write of `data` at the slot's position and the stamp behind it do to the files of the
      volume, if the disk records it. */
  ghost predicate WroteFile(v: Volume, sb: Superblock, disk: seq<byte>, disk': seq<byte>, slot: Slot,
                            data: seq<byte>, seconds: u32, t: Transfer)
  {
    OnVolume(v, sb, disk, slot, |data|) ==>
      && OneWritten(v, Files(v, disk).value, t.disk, slot.ino, slot.pos, data, t.count, t.arrived)
      && OneStamped(v, t.disk, disk', slot.ino, MTime, seconds, t.stamped)
  }

  /** The same for a read of `n` bytes. */
  ghost predicate DidReadFile(v: Volume, sb: Superblock, disk: seq<byte>, disk': seq<byte>,
                              slot: Slot, n: nat, seconds: u32, out: seq<byte>, out': seq<byte>,
                              t: Transfer)
  {
    OnVolume(v, sb, disk, slot, n) ==>
      && t.disk == disk
      && Delivered(Files(v, disk).value[slot.ino].bytes, slot.pos, n, t.count, t.arrived, out, out')
      && OneStamped(v, disk, disk', slot.ino, ATime, seconds, t.stamped)
  }

  lemma WriteOnVolume(v: Volume, sb: Superblock, disk: seq<byte>, disk': seq<byte>, slot: Slot,
                      data: seq<byte>, seconds: u32, inode: seq<byte>, t: Transfer,
                      trace: seq<Io>, trace': seq<Io>)
    requires sb.inodesPerGroup > 0 && |inode| == INODE && slot.pos + |data| <= MAX_FILE
    requires t.count != -1 ==> IsInode(disk, sb, slot.ino, inode)
    requires Ext2.WriteResult(disk, t.disk, inode, slot.pos, data, t.count, t.arrived, trace, trace')
    requires Ext2.StampStored(t.disk, disk', sb, slot.ino, MTime, seconds, t.stamped)
    ensures WroteFile(v, sb, disk, disk', slot, data, seconds, t)
  {
    hide Files, OneWritten, OneStamped, Ext2.WriteResult, Ext2.StampStored, IsInode, GroupOnDisk;
    if OnVolume(v, sb, disk, slot, |data|) {
      WriteOutcome(v, disk, t.disk, Files(v, disk).value, slot.ino, inode, slot.pos, data,
                   t.count, t.arrived, trace, trace');
      StampOutcome(v, t.disk, disk', slot.ino, MTime, seconds, t.stamped);
    }
  }

  lemma ReadOnVolume(v: Volume, sb: Superblock, disk: seq<byte>, disk': seq<byte>, slot: Slot,
                     n: nat, seconds: u32, inode: seq<byte>, out: seq<byte>, out': seq<byte>,
                     t: Transfer, trace: seq<Io>, trace': seq<Io>)
    requires sb.inodesPerGroup > 0 && t.disk == disk && |inode| == INODE && slot.pos + n <= MAX_FILE
    requires t.count != -1 ==> IsInode(disk, sb, slot.ino, inode)
    requires Ext2.ReadResult(disk, inode, slot.pos, n, t.count, t.arrived, out, out', trace, trace')
    requires Ext2.StampStored(disk, disk', sb, slot.ino, ATime, seconds, t.stamped)
    ensures DidReadFile(v, sb, disk, disk', slot, n, seconds, out, out', t)
  {
    hide Files, Delivered, OneStamped, Ext2.ReadResult, Ext2.StampStored, IsInode, GroupOnDisk;
    if OnVolume(v, sb, disk, slot, n) {
      ReadOutcome(v, disk, Files(v, disk).value, slot.ino, inode, slot.pos, n, t.count, t.arrived,
                  out, out', trace, trace');
      StampOutcome(v, disk, disk', slot.ino, ATime, seconds, t.stamped);
    }
  }

  /** Without a failure the write is the one that `WriteCall` describes. */
  lemma WriteServed(sb: Superblock, disk: seq<byte>, disk': seq<byte>, slot: Slot, data: seq<byte>,
                    seconds: u32, inode: seq<byte>, t: Transfer, trace: seq<Io>, trace': seq<Io>)
    requires Transferable(sb, disk, slot, |data|) && |inode| == INODE
    requires t.count != -1 ==> IsInode(disk, sb, slot.ino, inode)
    requires Ext2.Unfailing(disk, sb, slot.ino, slot.pos, |data|, t.count)
    requires Ext2.WriteResult(disk, t.disk, inode, slot.pos, data, t.count, t.arrived, trace, trace')
    requires Ext2.StampStored(t.disk, disk', sb, slot.ino, MTime, seconds, t.stamped)
    requires t.stamped <==> InodeAt(t.disk, sb, slot.ino).Some?
    ensures (disk', Reply(if t.stamped then t.count else -1, []))
         == WriteCall(sb, disk, slot, data, seconds)
  {
    hide InodeAt, GroupOf, FileOnDisk, Scatter, Splice, InodePos;
  }

  lemma ReadServed(sb: Superblock, disk: seq<byte>, disk': seq<byte>, slot: Slot, n: nat,
                   seconds: u32, inode: seq<byte>, out: seq<byte>, out': seq<byte>, t: Transfer,
                   trace: seq<Io>, trace': seq<Io>)
    requires Transferable(sb, disk, slot, n) && |inode| == INODE && n > 0
    requires t.count != -1 ==> IsInode(disk, sb, slot.ino, inode)
    requires Ext2.Unfailing(disk, sb, slot.ino, slot.pos, n, t.count)
    requires t.stamped <==> InodeAt(disk, sb, slot.ino).Some?
    requires Ext2.ReadResult(disk, inode, slot.pos, n, t.count, t.arrived, out, out', trace, trace')
    requires Ext2.StampStored(disk, disk', sb, slot.ino, ATime, seconds, t.stamped)
    ensures var (after, reply) := ReadCall(sb, disk, slot, n, seconds);
      && disk' == after && (if t.stamped then t.count else -1) == reply.code
      && out' == Splice(out, 0, reply.data)
  {
    hide InodeAt, GroupOf, FileOnDisk, Gather, Splice, InodePos;
    SpliceNothing(out, 0);
  }

  // ----- the run of the kernel

  /** No request for a group descriptor failed. */
  ghost predicate AllArrived(sb: Superblock, ios: seq<Io>)
    requires sb.inodesPerGroup > 0
  {
    forall ino: u32 :: Ext2.GroupIo(sb, ino, false) !in ios
  }

  ghost predicate AllAimed(ts: seq<Transfer>) {
    forall i :: 0 <= i < |ts| ==> ts[i].aimed
  }

  ghost predicate AllStamped(ts: seq<Transfer>) {
    forall i :: 0 <= i < |ts| ==> ts[i].stamped
  }

  lemma LoggedCode(sb: Superblock, ino: u32, r: int, t: Transfer, trace: seq<Io>, trace': seq<Io>)
    requires sb.inodesPerGroup > 0 && Logged(sb, ino, r, t, trace, trace')
    ensures r == if t.stamped then t.count else -1
  {
  }

  lemma LoggedTrace(sb: Superblock, ino: u32, r: int, t: Transfer, trace: seq<Io>, trace': seq<Io>)
    requires sb.inodesPerGroup > 0 && Logged(sb, ino, r, t, trace, trace')
    ensures |trace| <= |trace'| && trace'[..|trace|] == trace && (!t.stamped ==> r == -1)
    ensures AllArrived(sb, trace'[|trace|..]) ==> t.aimed
  {
  }

  lemma CountFits(v: Volume, sb: Superblock, disk: seq<byte>, disk': seq<byte>, slot: Slot, n: nat,
                  seconds: u32, out: seq<byte>, out': seq<byte>, t: Transfer, files: map<u32, File>)
    requires v.sb == sb && Files(v, disk) == Some(files) && InFile(files, slot, n)
    requires DidReadFile(v, sb, disk, disk', slot, n, seconds, out, out', t)
    ensures t.count <= n
  {
    hide Files, OneStamped;
  }

  /** A run on any device after `i` calls. As long as it is sound, `now` is what disk and table stand
      for; in any case it has their shape. */
  ghost predicate Going(v: Volume, s: State, cs: seq<Call>, i: nat, now: State, disk: seq<byte>,
                        fds: seq<Slot>, ts: seq<Transfer>, replies: seq<Reply>)
  {
    && RunMeant(s, cs) && OpensNothing(cs) && i <= |cs| && |ts| == i == |replies|
    && now.fds == fds && SameShape(s.files, now.files)
    && RunMeant(now, cs[i..]) && RunMeaning(now, cs[i..]).0.fds == RunMeaning(s, cs).0.fds
    && (AllAimed(ts) && AllStamped(ts) ==>
          && Files(v, disk) == Some(now.files)
          && RunMeant(s, cs[..i]) && OpensNothing(cs[..i])
          && RunSuffered(s, cs[..i], now, ts, replies))
  }

  lemma GoingStarts(v: Volume, s: State, cs: seq<Call>, disk: seq<byte>)
    requires RunMeant(s, cs) && OpensNothing(cs) && Files(v, disk) == Some(s.files)
    ensures Going(v, s, cs, 0, s, disk, s.fds, [], [])
  {
    hide Files, Meant, Meaning;
    assert cs[0..] == cs && cs[..0] == [];
  }

  lemma GoingCall(v: Volume, s: State, cs: seq<Call>, i: nat, now: State, disk: seq<byte>,
                  fds: seq<Slot>, ts: seq<Transfer>, replies: seq<Reply>)
    requires Going(v, s, cs, i, now, disk, fds, ts, replies) && i < |cs|
    requires forall ino :: ino in s.files ==> |s.files[ino].bytes| <= MAX_FILE
    ensures Meant(now, cs[i]) && !cs[i].Open?
    ensures forall ino :: ino in now.files ==> |now.files[ino].bytes| <= MAX_FILE
  {
    hide Files, Meant, Meaning, RunSuffered;
    assert cs[i] in cs && cs[i..][0] == cs[i];
  }

  lemma GoingOn(v: Volume, s: State, cs: seq<Call>, i: nat, now: State, disk: seq<byte>,
                disk': seq<byte>, fds: seq<Slot>, fds': seq<Slot>, ts: seq<Transfer>,
                replies: seq<Reply>, t: Transfer, reply: Reply) returns (now': State)
    requires Going(v, s, cs, i, now, disk, fds, ts, replies) && i < |cs|
    requires Meant(now, cs[i]) && !cs[i].Open? && fds' == Meaning(now, cs[i]).0.fds
    requires t.aimed && t.stamped && Files(v, disk) == Some(now.files) ==>
      Files(v, disk').Some? && Suffered(now, cs[i], State(Files(v, disk').value, fds'), t, reply)
    ensures Going(v, s, cs, i + 1, now', disk', fds', ts + [t], replies + [reply])
  {
    hide Files, Meant, Meaning, Suffered, RunSuffered, SameShape;
    var c, rest := cs[i], cs[i + 1..];
    var next := Meaning(now, c).0;
    assert cs[i..][0] == c && cs[i..][1..] == rest && OpensNothing(rest);
    SoundSoFar(ts, t);
    ShapeOfMeaning(now, c);
    if t.aimed && t.stamped && Files(v, disk) == Some(now.files) {
      now' := State(Files(v, disk').value, fds');
      SufferedKeeps(now, c, now', t, reply);
      RunMeantByShape(next, now', rest);
      if AllAimed(ts) && AllStamped(ts) {
        RunSufferedMore(s, cs[..i], now, ts, replies, c, now', t, reply);
        assert cs[..i] + [c] == cs[..i + 1];
      }
      ShapeChain(s.files, now.files, now'.files);
    } else {
      now' := next;
      ShapeChain(s.files, now.files, now'.files);
    }
  }

  lemma GoingTable(v: Volume, s: State, cs: seq<Call>, i: nat, now: State, disk: seq<byte>,
                   fds: seq<Slot>, ts: seq<Transfer>, replies: seq<Reply>)
    requires Going(v, s, cs, i, now, disk, fds, ts, replies)
    ensures now.fds == fds
  {
  }

  lemma NoneYet(sb: Superblock, trace: seq<Io>)
    requires sb.inodesPerGroup > 0
    ensures trace[..|trace|] == trace && AllAimed([])
  {
  }

  lemma SoundSoFar(ts: seq<Transfer>, t: Transfer)
    ensures AllAimed(ts + [t]) <==> AllAimed(ts) && t.aimed
    ensures AllStamped(ts + [t]) <==> AllStamped(ts) && t.stamped
  {
    var ts' := ts + [t];
    assert ts'[|ts|] == t && forall i :: 0 <= i < |ts| ==> ts'[i] == ts[i];
  }

  lemma ShapeOfMeaning(s: State, c: Call)
    requires Meant(s, c) && !c.Open?
    ensures SameShape(s.files, Meaning(s, c).0.files) && SameShape(Meaning(s, c).0.files, s.files)
  {
    hide Splice, Seconds;
  }

  lemma ShapeChain(a: map<u32, File>, b: map<u32, File>, c: map<u32, File>)
    requires SameShape(a, b) && SameShape(b, c)
    ensures SameShape(a, c)
  {
  }

  lemma GoingEnds(v: Volume, s: State, cs: seq<Call>, now: State, disk: seq<byte>,
                  fds: seq<Slot>, ts: seq<Transfer>, replies: seq<Reply>)
    requires Going(v, s, cs, |cs|, now, disk, fds, ts, replies)
    ensures fds == RunMeaning(s, cs).0.fds
    ensures AllAimed(ts) && AllStamped(ts) ==>
      && Files(v, disk) == Some(now.files) && now == State(now.files, fds)
      && RunSuffered(s, cs, now, ts, replies)
      && forall ino: u32 :: ino in s.files && RunAvoids(s, cs, ino) ==>
           ino in now.files && now.files[ino].bytes == s.files[ino].bytes
  {
    hide Files, Meant, Meaning, RunSuffered;
    assert cs[|cs|..] == [] && cs[..|cs|] == cs;
    if AllAimed(ts) && AllStamped(ts) {
      forall ino: u32 | ino in s.files && RunAvoids(s, cs, ino)
        ensures ino in now.files && now.files[ino].bytes == s.files[ino].bytes
      {
        UntouchedOnAnyDevice(s, cs, now, ts, replies, ino);
      }
    }
  }

  /** What arrived over a stretch of requests arrived in both of its parts. */
  lemma ArrivedParts(sb: Superblock, trace0: seq<Io>, trace1: seq<Io>, trace2: seq<Io>)
    requires sb.inodesPerGroup > 0 && |trace0| <= |trace1| <= |trace2|
    requires trace1[..|trace0|] == trace0 && trace2[..|trace1|] == trace1
    ensures trace2[..|trace0|] == trace0
    ensures AllArrived(sb, trace2[|trace0|..]) ==>
      AllArrived(sb, trace1[|trace0|..]) && AllArrived(sb, trace2[|trace1|..])
  {
    hide Ext2.GroupIo;
    assert trace2[..|trace0|] == trace2[..|trace1|][..|trace0|];
    assert trace2[|trace0|..] == trace1[|trace0|..] + trace2[|trace1|..];
  }

  lemma FilesFit(v: Volume, disk: seq<byte>, files: map<u32, File>)
    requires Files(v, disk) == Some(files)
    ensures forall ino :: ino in files ==> |files[ino].bytes| <= MAX_FILE
  {
    hide InodeBytes, Gather, StampOf, GroupAt;
    forall ino | ino in files ensures |files[ino].bytes| <= MAX_FILE {
      assert files[ino] == FileAt(v, disk, ino);
    }
  }

  // ----- one transfer as the relation says

  /** A read on any device is suffered as the abstract relation says, if its descriptors were right
      and its stamp was stored. */
  lemma ReadSuffered(v: Volume, disk: seq<byte>, disk': seq<byte>, s: State, c: Call,
                     out: seq<byte>, out': seq<byte>, t: Transfer, reply: Reply)
    requires Files(v, disk) == Some(s.files) && Meant(s, c)
    requires c.Read? && IsOpen(s.fds, c.fd) && c.size > 0 && t.stamped && |out| == c.size
    requires DidReadFile(v, v.sb, disk, disk', s.fds[c.fd], c.size, Seconds(c.clock), out, out', t)
    requires |out'| == |out| && t.count <= c.size
    requires reply == Reply(t.count, if t.count > 0 then out'[..t.count] else [])
    ensures Files(v, disk').Some?
    ensures Suffered(s, c, State(Files(v, disk').value, s.fds), t, reply)
  {
    hide Files, Seconds, Splice;
    var slot := s.fds[c.fd];
    var bytes := s.files[slot.ino].bytes;
    if t.count > 0 {
      DeliveredCount(bytes, slot.pos, t, out, out');
    }
  }

  lemma DeliveredCount(bytes: seq<byte>, pos: nat, t: Transfer, out: seq<byte>, out': seq<byte>)
    requires 0 < t.count <= t.arrived <= |out| && pos + t.arrived <= |bytes|
    requires out' == Splice(out, 0, bytes[pos..pos + t.arrived])
    ensures out'[..t.count] == bytes[pos..pos + t.count]
  {
    forall i | 0 <= i < t.count ensures out'[i] == bytes[pos + i] {
      SpliceAt(out, 0, bytes[pos..pos + t.arrived], i);
    }
  }

  lemma WriteSuffered(v: Volume, disk: seq<byte>, disk': seq<byte>, s: State, c: Call, t: Transfer,
                      reply: Reply)
    requires Files(v, disk) == Some(s.files) && Meant(s, c)
    requires c.Write? && IsOpen(s.fds, c.fd) && t.stamped && reply == Reply(t.count, [])
    requires WroteFile(v, v.sb, disk, disk', s.fds[c.fd], c.data, Seconds(c.clock), t)
    ensures Files(v, disk').Some?
    ensures Suffered(s, c, State(Files(v, disk').value, s.fds), t, reply)
  {
    hide Files, Seconds, Splice, Written;
    var slot := s.fds[c.fd];
    var f := s.files[slot.ino];
    var files1 := Files(v, t.disk).value;
    var f1 := f.(bytes := files1[slot.ino].bytes);
    assert s.files[slot.ino := f1][slot.ino := f1.(mtime := Seconds(c.clock))]
        == s.files[slot.ino := f1.(mtime := Seconds(c.clock))];
  }

  /** The data of a reply is what a read of that many bytes leaves at the front of its buffer. */
  lemma ReplyData(s: State, c: Call, out: seq<byte>)
    requires Meant(s, c) && (c.Read? ==> |out| == c.size)
    ensures var reply := Meaning(s, c).1;
      && (!c.Read? || reply.code <= 0 ==> reply.data == [])
      && (c.Read? && reply.code > 0 ==>
            reply.code == |reply.data| == c.size
            && Splice(out, 0, reply.data)[..reply.code] == reply.data)
  {
    if c.Read? && IsOpen(s.fds, c.fd) && c.size > 0 {
      var data := Meaning(s, c).1.data;
      SpliceReadBack(out, 0, data);
      hide Splice;
      assert Splice(out, 0, data)[0..|data|] == Splice(out, 0, data)[..|data|];
    }
  }

  // ----- the steps of the calls

  /** The step of a read, by its cases. */
  lemma StepOfRead(sb: Superblock, disk: seq<byte>, fds: seq<Slot>, fd: u64, n: nat, clock: u64)
    requires Servable(sb, disk, fds, Read(fd, n, clock))
    ensures IsOpen(fds, fd) && n > 0 ==> Transferable(sb, disk, fds[fd], n)
    ensures Step(sb, disk, fds, Read(fd, n, clock))
         == if !IsOpen(fds, fd) then (disk, fds, Reply(-1, []))
            else if n == 0 then (disk, fds, Reply(0, []))
            else var (disk', reply) := ReadCall(sb, disk, fds[fd], n, Seconds(clock)); (disk', fds, reply)
  {
    hide ReadCall, Transferable, Seconds;
  }

  lemma StepOfWrite(sb: Superblock, disk: seq<byte>, fds: seq<Slot>, fd: u64, data: seq<byte>,
                    clock: u64)
    requires Servable(sb, disk, fds, Write(fd, data, clock))
    ensures IsOpen(fds, fd) ==> Transferable(sb, disk, fds[fd], |data|)
    ensures Step(sb, disk, fds, Write(fd, data, clock))
         == if !IsOpen(fds, fd) then (disk, fds, Reply(-1, []))
            else var (disk', reply) := WriteCall(sb, disk, fds[fd], data, Seconds(clock)); (disk', fds, reply)
  {
    hide WriteCall, Transferable, Seconds;
  }

  lemma ServableFits(sb: Superblock, disk: seq<byte>, fds: seq<Slot>, c: Call)
    requires Servable(sb, disk, fds, c)
    ensures c.Read? && IsOpen(fds, c.fd) ==>
      fds[c.fd].handlers == DiskHandlers && (c.size > 0 ==> fds[c.fd].pos + c.size <= MAX_FILE)
    ensures c.Write? && IsOpen(fds, c.fd) ==>
      fds[c.fd].handlers == DiskHandlers && fds[c.fd].pos + |c.data| <= MAX_FILE
  {
    hide GroupOf, InodeAt, FileOnDisk, GroupOnDisk, Openable;
  }

  lemma NoneClosed(fds: seq<Slot>)
    requires forall i :: 0 <= i < |fds| ==> fds[i].open
    ensures LowestClosed(fds) == |fds|
  {
  }

  lemma TextIs(p: seq<byte>, text: seq<byte>)
    requires |text| < |p| && p[..|text|] == text && p[|text|] == 0 && 0 !in text
    ensures TextAt(p, 0, |text|)
  {
    forall i | 0 <= i < |text| ensures p[i] != 0 {
      assert p[i] == text[i] && text[i] in text;
    }
  }
}

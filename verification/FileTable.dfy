/** The descriptor table as the kernel updates it in place, over the whole storage stack. */
module FileTables {
  import opened Words
  import opened Bytes
  import opened Virtio
  import opened Blk
  import opened Ext2Disk
  import Ext2
  import opened Volumes
  import opened Descriptors
  import opened Faults
  import opened Outages
  import opened Paths
  import opened Trees

  class FileTable {
    const fds: array<Slot>
    const sb: Superblock
    const driver: BlkDriver

    ghost function Repr(): set<object> { {fds} + driver.Repr() }

    ghost predicate Valid()
      reads Repr()
    {
      && driver.Valid() && sb.inodesPerGroup > 0
      && fds.Length == MAX_FD && fds !in driver.Repr()
    }

    /** At mount only the console output is open, as descriptor 1. */
    constructor (driver: BlkDriver, sb: Superblock)
      requires driver.Valid() && sb.inodesPerGroup > 0
      ensures Valid() && this.driver == driver && this.sb == sb && fds.Length == 100
      ensures fds[..]
           == seq(MAX_FD, _ => Slot(false, 0, 0, NoHandlers))[1 := Slot(true, 0, 0, StdoutHandlers)]
    {
      this.driver, this.sb := driver, sb;
      fds := new Slot[MAX_FD](_ => Slot(false, 0, 0, NoHandlers));
      new;
      fds[1] := Slot(true, 0, 0, StdoutHandlers);
    }

    method IsFdOpen(fd: u64) returns (open: bool)
      requires Valid()
      ensures open == IsOpen(fds[..], fd)
    {
      open := fd < MAX_FD && fds[fd].open;
    }

    /** The lowest closed descriptor, or -1. */
    method NextFd() returns (fd: int)
      requires Valid()
      ensures fd == -1 ==> forall k :: 0 <= k < MAX_FD ==> fds[k].open
      ensures -1 <= fd < MAX_FD && (fd != -1 ==> !fds[fd].open)
      ensures forall k :: 0 <= k < fd ==> fds[k].open
    {
      for i := 0 to MAX_FD
        invariant forall k :: 0 <= k < i ==> fds[k].open
      {
        if !fds[i].open {
          return i;
        }
      }
      return -1;
    }

    method DiskSeekHandler(fd: u64, off: int, whence: Whence) returns (r: int)
      requires Valid()
      modifies fds
      ensures Valid()
      ensures !(fd < 100 && old(fds[fd].open)) || whence == SeekEnd || whence == OtherWhence ==>
        r == -1 && fds[..] == old(fds[..])
      ensures fd < 100 && old(fds[fd].open) && (whence == SeekSet || whence == SeekCur) ==>
        var p := (if whence == SeekSet then off else old(fds[fd].pos) + off) % TWO64;
        && r == ToInt32(p)
        && fds[..] == old(fds[..])[fd := old(fds[fd]).(pos := p)]
    {
      var open := IsFdOpen(fd);
      if !open {
        return -1;
      }
      match whence
      case SeekCur =>
        fds[fd] := fds[fd].(pos := Wrap64(fds[fd].pos + off));
        return ToInt32(fds[fd].pos);
      case SeekEnd =>
        return -1;
      case SeekSet =>
        fds[fd] := fds[fd].(pos := Wrap64(off));
        return ToInt32(fds[fd].pos);
      case OtherWhence =>
        return -1;
    }

    /** Writes at the descriptor's position, which does not move, and stamps the file even when the
        write fell short. */
    method DiskWriteHandler(fd: u64, buf: array<byte>, size: nat, clock: u64)
      returns (r: int, ghost t: Transfer)
      requires Valid() && buf !in Repr() && size <= buf.Length
      requires IsOpen(fds[..], fd) ==> fds[fd].pos + size <= MAX_FILE
      modifies driver.Repr()
      ensures Valid() && -1 <= r <= size && |driver.device.disk| == |old(driver.device.disk)|
      ensures !IsOpen(fds[..], fd) ==>
        && r == -1 && driver.device.disk == old(driver.device.disk)
        && driver.device.trace == old(driver.device.trace)
      // whatever the device does, as long as the positions were right
      ensures IsOpen(fds[..], fd) ==>
        Logged(sb, fds[fd].ino, r, t, old(driver.device.trace), driver.device.trace)
      ensures IsOpen(fds[..], fd) && t.aimed ==>
        forall v: Volume :: WroteFile(v, sb, old(driver.device.disk), driver.device.disk, fds[fd],
                                      buf[..size], Seconds(clock), t)
      // on a device that does not fail
      ensures (IsOpen(fds[..], fd) && !driver.device.faulty
               && Transferable(sb, old(driver.device.disk), fds[fd], size)) ==>
        (driver.device.disk, Reply(r, []))
        == WriteCall(sb, old(driver.device.disk), fds[fd], buf[..size], Seconds(clock))
    {
      hide InodeAt, GroupOf, FileOnDisk, InodePos, Seconds, PosInTable, TableOf, WriteCall;
      hide FileWriteDone, FileWriteShort;
      hide Ext2.Aimed, Ext2.GroupIo, WroteFile, Ext2.StampStored, Ext2.StampSet, Ext2.Unfailing, IsInode;
      var open := IsFdOpen(fd);
      if !open {
        return -1, Transfer(false, [], -1, 0, false);
      }
      ghost var disk, trace, slot := driver.device.disk, driver.device.trace, fds[fd];
      ghost var g, desc, inode, k, g1, d1, g2, d2;
      var written, ok;
      written, g, desc, inode, k := Ext2.WriteToIno(driver, sb, fds[fd].ino, buf, fds[fd].pos, size);
      ghost var disk1, trace1 := driver.device.disk, driver.device.trace;
      ok, g1, d1, g2, d2 := Ext2.SetStampForIno(driver, sb, fds[fd].ino, MTime, Seconds(clock));
      r := if ok then written else -1;
      t := Transfer(Ext2.Aimed(disk, sb, slot.ino, desc) && Ext2.Aimed(disk1, sb, slot.ino, d1)
                    && Ext2.Aimed(disk1, sb, slot.ino, d2), disk1, written, k, ok);
      Ext2.StampTrace(disk1, driver.device.disk, sb, slot.ino, MTime, Seconds(clock), g1, d1, g2, d2,
                      ok, trace1, driver.device.trace);
      MissIsTraced(sb, slot.ino, g, g1, g2, trace, trace1, driver.device.trace);
      if t.aimed {
        forall v: Volume
          ensures WroteFile(v, sb, disk, driver.device.disk, slot, buf[..size], Seconds(clock), t)
        {
          WriteOnVolume(v, sb, disk, driver.device.disk, slot, buf[..size], Seconds(clock), inode, t,
                        trace1[..|trace| + 2], trace1);
        }
        if Transferable(sb, disk, slot, size) && !driver.device.faulty {
          WriteServed(sb, disk, driver.device.disk, slot, buf[..size], Seconds(clock), inode, t,
                      trace1[..|trace| + 2], trace1);
        }
      }
    }

    /** Reads at the descriptor's position, which does not move. Nothing at all happens for size 0,
        not even the check of the descriptor. */
    method DiskReadHandler(fd: u64, buf: array<byte>, size: nat, clock: u64)
      returns (r: int, ghost t: Transfer)
      requires Valid() && buf !in Repr() && size <= buf.Length
      requires size > 0 && IsOpen(fds[..], fd) ==> fds[fd].pos + size <= MAX_FILE
      modifies driver.Repr(), buf
      ensures Valid() && -1 <= r <= size && |driver.device.disk| == |old(driver.device.disk)|
      ensures size == 0 ==>
        && r == 0 && driver.device.disk == old(driver.device.disk) && buf[..] == old(buf[..])
        && driver.device.trace == old(driver.device.trace)
      ensures size > 0 && !IsOpen(fds[..], fd) ==>
        && r == -1 && driver.device.disk == old(driver.device.disk) && buf[..] == old(buf[..])
        && driver.device.trace == old(driver.device.trace)
      // whatever the device does, as long as the positions were right
      ensures size > 0 && IsOpen(fds[..], fd) ==>
        Logged(sb, fds[fd].ino, r, t, old(driver.device.trace), driver.device.trace)
      ensures size > 0 && IsOpen(fds[..], fd) && t.aimed ==>
        forall v: Volume :: DidReadFile(v, sb, old(driver.device.disk), driver.device.disk, fds[fd],
                                        size, Seconds(clock), old(buf[..]), buf[..], t)
      // on a device that does not fail
      ensures (size > 0 && IsOpen(fds[..], fd) && !driver.device.faulty
               && Transferable(sb, old(driver.device.disk), fds[fd], size)) ==>
        var (disk', reply) := ReadCall(sb, old(driver.device.disk), fds[fd], size, Seconds(clock));
        && driver.device.disk == disk' && r == reply.code
        && buf[..] == Splice(old(buf[..]), 0, reply.data)
    {
      hide InodeAt, GroupOf, FileOnDisk, Splice, InodePos, Seconds, PosInTable, TableOf, ReadCall;
      hide FileReadDone, FileReadShort;
      hide Ext2.Aimed, Ext2.GroupIo, DidReadFile, Ext2.StampStored, Ext2.StampSet, Ext2.Unfailing, IsInode;
      if size == 0 {
        return 0, Transfer(false, [], 0, 0, false);
      }
      var open := IsFdOpen(fd);
      if !open {
        return -1, Transfer(false, [], -1, 0, false);
      }
      ghost var disk, trace, slot, out := driver.device.disk, driver.device.trace, fds[fd], buf[..];
      ghost var g, desc, inode, k, g1, d1, g2, d2;
      var red, ok;
      red, g, desc, inode, k := Ext2.ReadFromIno(driver, sb, fds[fd].ino, buf, fds[fd].pos, size);
      ghost var trace1 := driver.device.trace;
      ok, g1, d1, g2, d2 := Ext2.SetStampForIno(driver, sb, fds[fd].ino, ATime, Seconds(clock));
      r := if ok then red else -1;
      t := Transfer(Ext2.Aimed(disk, sb, slot.ino, desc) && Ext2.Aimed(disk, sb, slot.ino, d1)
                    && Ext2.Aimed(disk, sb, slot.ino, d2), disk, red, k, ok);
      Ext2.StampTrace(disk, driver.device.disk, sb, slot.ino, ATime, Seconds(clock), g1, d1, g2, d2,
                      ok, trace1, driver.device.trace);
      MissIsTraced(sb, slot.ino, g, g1, g2, trace, trace1, driver.device.trace);
      if t.aimed {
        forall v: Volume
          ensures DidReadFile(v, sb, disk, driver.device.disk, slot, size, Seconds(clock),
                              out, buf[..], t)
        {
          ReadOnVolume(v, sb, disk, driver.device.disk, slot, size, Seconds(clock), inode, out,
                       buf[..], t, trace1[..|trace| + 2], trace1);
        }
        if Transferable(sb, disk, slot, size) && !driver.device.faulty {
          ReadServed(sb, disk, driver.device.disk, slot, size, Seconds(clock), inode, out, buf[..], t,
                     trace1[..|trace| + 2], trace1);
        }
      }
    }

    method SeekS(fd: u64, off: int, whence: Whence) returns (r: int)
      requires Valid() && Servable(sb, driver.device.disk, fds[..], Seek(fd, off, whence))
      modifies fds
      ensures Valid()
      ensures (driver.device.disk, fds[..], Reply(r, []))
           == Step(sb, old(driver.device.disk), old(fds[..]), Seek(fd, off, whence))
    {
      var open := IsFdOpen(fd);
      if !open {
        return -1;
      }
      r := DiskSeekHandler(fd, off, whence);
    }

    method ReadS(fd: u64, buf: array<byte>, size: nat, clock: u64) returns (r: int, ghost t: Transfer)
      requires Valid() && buf !in Repr() && size <= buf.Length
      requires IsOpen(fds[..], fd) ==>
        fds[fd].handlers == DiskHandlers && (size > 0 ==> fds[fd].pos + size <= MAX_FILE)
      modifies driver.Repr(), buf
      ensures Valid() && fds[..] == old(fds[..])
      ensures size == 0 || !IsOpen(fds[..], fd) ==>
        && r == (if IsOpen(fds[..], fd) then 0 else -1) && driver.device.disk == old(driver.device.disk)
        && driver.device.trace == old(driver.device.trace) && buf[..] == old(buf[..])
      // whatever the device does
      ensures size > 0 && IsOpen(fds[..], fd) ==>
        && Logged(sb, fds[fd].ino, r, t, old(driver.device.trace), driver.device.trace)
        && (t.aimed ==> forall v: Volume ::
              DidReadFile(v, sb, old(driver.device.disk), driver.device.disk, fds[fd], size,
                          Seconds(clock), old(buf[..]), buf[..], t))
      // on a device that does not fail
      ensures (!driver.device.faulty
               && Servable(sb, old(driver.device.disk), old(fds[..]), Read(fd, size, clock))) ==>
        var (disk', fds', reply) :=
          Step(sb, old(driver.device.disk), old(fds[..]), Read(fd, size, clock));
        && driver.device.disk == disk' && fds[..] == fds' && r == reply.code
        && buf[..] == Splice(old(buf[..]), 0, reply.data)
    {
      hide Splice, ReadCall, Logged, DidReadFile, Transferable, Step, Servable, Seconds;
      SpliceNothing(buf[..], 0);
      if Servable(sb, driver.device.disk, fds[..], Read(fd, size, clock)) {
        StepOfRead(sb, driver.device.disk, fds[..], fd, size, clock);
      }
      var open := IsFdOpen(fd);
      if !open {
        return -1, Transfer(false, [], -1, 0, false);
      }
      r, t := DiskReadHandler(fd, buf, size, clock);
    }

    method WriteS(fd: u64, buf: array<byte>, size: nat, clock: u64) returns (r: int, ghost t: Transfer)
      requires Valid() && buf !in Repr() && size <= buf.Length
      requires IsOpen(fds[..], fd) ==>
        fds[fd].handlers == DiskHandlers && fds[fd].pos + size <= MAX_FILE
      modifies driver.Repr()
      ensures Valid() && fds[..] == old(fds[..])
      ensures !IsOpen(fds[..], fd) ==>
        && r == -1 && driver.device.disk == old(driver.device.disk)
        && driver.device.trace == old(driver.device.trace)
      // whatever the device does
      ensures IsOpen(fds[..], fd) ==>
        && Logged(sb, fds[fd].ino, r, t, old(driver.device.trace), driver.device.trace)
        && (t.aimed ==> forall v: Volume ::
              WroteFile(v, sb, old(driver.device.disk), driver.device.disk, fds[fd], buf[..size],
                        Seconds(clock), t))
      // on a device that does not fail
      ensures (!driver.device.faulty
               && Servable(sb, old(driver.device.disk), old(fds[..]), Write(fd, buf[..size], clock))) ==>
        (driver.device.disk, fds[..], Reply(r, []))
        == Step(sb, old(driver.device.disk), old(fds[..]), Write(fd, buf[..size], clock))
    {
      hide WriteCall, Logged, WroteFile, Transferable, Step, Servable, Seconds;
      if Servable(sb, driver.device.disk, fds[..], Write(fd, buf[..size], clock)) {
        StepOfWrite(sb, driver.device.disk, fds[..], fd, buf[..size], clock);
      }
      var open := IsFdOpen(fd);
      if !open {
        return -1, Transfer(false, [], -1, 0, false);
      }
      r, t := DiskWriteHandler(fd, buf, size, clock);
    }

    method CloseFd(fd: int) returns (r: int)
      requires Valid()
      modifies fds
      ensures Valid()
      ensures if 0 <= fd < 100 && old(fds[fd].open)
        then r == 0
          && fds[..] == old(fds[..])[fd := Slot(false, old(fds[fd].pos), old(fds[fd].ino), NoHandlers)]
        else r == -1 && fds[..] == old(fds[..])
      ensures (driver.device.disk, fds[..], Reply(r, []))
           == Step(sb, old(driver.device.disk), old(fds[..]), Close(fd))
    {
      if fd < 0 || fd >= MAX_FD || !fds[fd].open {
        return -1;
      }
      fds[fd] := Closed(fds[fd]);
      return 0;
    }

    /** Opens the file a path names on the lowest closed descriptor. The position is the one the slot
        had before, and a path that names nothing still opens the slot, with the last number the
        resolution found or the slot's old one. With no slot left the path is not looked at. */
    method OpenFd(path: array<byte>, ghost end: nat)
      returns (fd: int, ghost helds: seq<seq<byte>>)
      requires Valid() && !driver.device.faulty && path !in Repr()
      requires TextAt(path[..], 0, end)
      requires LowestClosed(fds[..]) < MAX_FD ==>
        Resolvable(driver.device.disk, sb, Components(path[..end]))
      modifies Repr(), path
      ensures Valid() && driver.device.disk == old(driver.device.disk) && -1 <= fd < MAX_FD
      ensures SlashesCut(old(path[..]), path[..])
      ensures fd == -1 ==>
        fds[..] == old(fds[..]) && forall k :: 0 <= k < MAX_FD ==> old(fds[k].open)
      ensures fd != -1 ==>
        && !old(fds[fd].open) && (forall k :: 0 <= k < fd ==> old(fds[k].open))
        && Buffers(helds, |Components(old(path[..end]))| + 1)
        && var r := FromRoot(driver.device.disk, sb, Components(old(path[..end])),
                             old(fds[fd].ino), seq(INODE, _ => 0), helds);
        fds[..] == old(fds[..])[fd := Slot(true, old(fds[fd].pos), r.ino, DiskHandlers)]
    {
      hide Resolvable, FromRoot, Components, TextAt, InodeAt;
      fd := NextFd();
      helds := [];
      if fd < 0 {
        return;
      }
      LowestIs(fds[..], fd);
      fds[fd] := fds[fd].(open := true, handlers := DiskHandlers);
      var found, ino;
      found, ino, helds := InoFromPath(driver, sb, path, fds[fd].ino, end);
      fds[fd] := fds[fd].(ino := ino);
    }

    method OpenAtS(pathname: array<byte>, ghost text: seq<byte>) returns (r: int)
      requires Valid() && !driver.device.faulty && pathname !in Repr()
      requires |text| < pathname.Length && pathname[..|text|] == text && pathname[|text|] == 0
      requires Servable(sb, driver.device.disk, fds[..], Open(text))
      modifies Repr(), pathname
      ensures Valid() && SlashesCut(old(pathname[..]), pathname[..])
      ensures (driver.device.disk, fds[..], Reply(r, []))
           == Step(sb, old(driver.device.disk), old(fds[..]), Open(text))
    {
      hide FromRoot, Components, OpenNumber, Resolvable, SettledFromRoot;
      TextIs(pathname[..], text);
      ghost var table, disk := fds[..], driver.device.disk;
      ghost var helds;
      r, helds := OpenFd(pathname, |text|);
      if r == -1 {
        NoneClosed(table);
      } else {
        LowestIs(table, r);
        OpenNumberFixed(sb, disk, Components(text), table[r].ino, seq(INODE, _ => 0), helds);
      }
    }

    /** The dispatcher: on a volume in good order every call, through the handlers, the ext2 layer,
        the sector driver, the ring and the device, does to the real disk, table and buffer what
        the call means for the files of the volume. */
    method SystemCall(c: Call, buf: array<byte>, ghost v: Volume, ghost s: State) returns (code: int)
      requires Valid() && buf !in Repr() && !driver.device.faulty
      requires v.sb == sb && Files(v, driver.device.disk) == Some(s.files) && s.fds == fds[..]
      requires Meant(s, c)
      requires c.Read? ==> c.size <= buf.Length
      requires c.Write? ==> |c.data| <= buf.Length && buf[..|c.data|] == c.data
      requires c.Open? ==> |c.path| < buf.Length && buf[..|c.path|] == c.path && buf[|c.path|] == 0
      modifies Repr(), buf
      ensures Valid()
      ensures var (s', reply) := Meaning(s, c);
        && Files(v, driver.device.disk) == Some(s'.files) && fds[..] == s'.fds
        && code == reply.code
        && (!c.Open? ==> buf[..] == Splice(old(buf[..]), 0, reply.data))
        && (c.Open? ==> SlashesCut(old(buf[..]), buf[..]))
    {
      hide Files, Step, Meaning, Splice, Servable, Meant, SlashesCut;
      StepMeans(v, driver.device.disk, s, c);
      ServableFits(sb, driver.device.disk, fds[..], c);
      SpliceNothing(buf[..], 0);
      match c
      case Seek(fd, off, whence) =>
        code := SeekS(fd, off, whence);
      case Read(fd, size, clock) =>
        ghost var t;
        code, t := ReadS(fd, buf, size, clock);
      case Write(fd, data, clock) =>
        ghost var t;
        code, t := WriteS(fd, buf, |data|, clock);
      case Close(number) =>
        code := CloseFd(number);
      case Open(path) =>
        code := OpenAtS(buf, path);
    }

    /** A buffer in user space for the call: room for what is read, the data to write, or the path
        and the zero byte that ends it. */
    static method UserBuffer(c: Call) returns (buf: array<byte>)
      ensures fresh(buf)
      ensures c.Read? ==> buf.Length == c.size
      ensures c.Write? ==> buf.Length == |c.data| && buf[..|c.data|] == c.data
      ensures c.Open? ==> buf.Length == |c.path| + 1 && buf[..|c.path|] == c.path && buf[|c.path|] == 0
    {
      var text := if c.Write? then c.data else if c.Open? then c.path + [0] else [];
      buf := new byte[if c.Read? then c.size else |text|](_ => 0);
      SpliceReadBack(buf[..], 0, text);
      Store(buf, 0, text);
      assert |text| == buf.Length ==> buf[..] == text by { assert buf[..][0..buf.Length] == buf[..]; }
    }

    /** One call from user space, with a buffer of its own. */
    method PerformCall(c: Call, ghost v: Volume, ghost s: State) returns (reply: Reply)
      requires Valid() && !driver.device.faulty
      requires v.sb == sb && Files(v, driver.device.disk) == Some(s.files) && s.fds == fds[..]
      requires Meant(s, c)
      modifies Repr()
      ensures Valid()
      ensures var (s', reply') := Meaning(s, c);
        && Files(v, driver.device.disk) == Some(s'.files) && fds[..] == s'.fds && reply == reply'
    {
      hide Files, Splice, Meant, Meaning;
      var buf := UserBuffer(c);
      var size := buf.Length;
      ghost var before := buf[..];
      var code := SystemCall(c, buf, v, s);
      reply := Reply(code, if c.Read? && 0 < code <= size then buf[..code] else []);
      ReplyData(s, c, before);
    }

    /** Any list of calls, each carried out by the kernel: the replies, the table and the files on
        the disk are those of the abstract run. */
    method PerformCalls(cs: seq<Call>, ghost v: Volume, ghost s: State) returns (replies: seq<Reply>)
      requires Valid() && !driver.device.faulty
      requires v.sb == sb && Files(v, driver.device.disk) == Some(s.files) && s.fds == fds[..]
      requires RunMeant(s, cs)
      modifies Repr()
      ensures Valid()
      ensures var (s', replies') := RunMeaning(s, cs);
        && Files(v, driver.device.disk) == Some(s'.files) && fds[..] == s'.fds && replies == replies'
    {
      hide Files, Meant, Meaning;
      ghost var now := s;
      replies := [];
      assert cs[0..] == cs;
      for i := 0 to |cs|
        invariant Valid() && RunMeant(now, cs[i..])
        invariant Files(v, driver.device.disk) == Some(now.files) && fds[..] == now.fds
        invariant RunMeaning(s, cs).0 == RunMeaning(now, cs[i..]).0
        invariant RunMeaning(s, cs).1 == replies + RunMeaning(now, cs[i..]).1
      {
        assert cs[i..][1..] == cs[i + 1..];
        var reply := PerformCall(cs[i], v, now);
        now := Meaning(now, cs[i]).0;
        replies := replies + [reply];
      }
      assert cs[|cs|..] == [];
    }

    /** A read with a buffer of its own, on any device. */
    method ReadOnAny(c: Call, ghost v: Volume, ghost s: State) returns (reply: Reply, ghost t: Transfer)
      requires Valid() && v.sb == sb && s.fds == fds[..] && Meant(s, c) && c.Read?
      requires IsOpen(s.fds, c.fd) && c.size > 0 && fds[c.fd].pos + c.size <= MAX_FILE
      modifies Repr()
      ensures Valid() && fds[..] == s.fds
      ensures Logged(sb, s.fds[c.fd].ino, reply.code, t, old(driver.device.trace), driver.device.trace)
      ensures t.aimed && t.stamped && Files(v, old(driver.device.disk)) == Some(s.files) ==>
        && Files(v, driver.device.disk).Some?
        && Suffered(s, c, State(Files(v, driver.device.disk).value, s.fds), t, reply)
    {
      hide Files, Suffered, DidReadFile, Logged, Servable, Step;
      ghost var disk, slot := driver.device.disk, s.fds[c.fd];
      var buf := new byte[c.size](_ => 0);
      ghost var out := buf[..];
      var code;
      code, t := ReadS(c.fd, buf, c.size, c.clock);
      LoggedCode(sb, slot.ino, code, t, old(driver.device.trace), driver.device.trace);
      reply := Reply(code, if 0 < code <= c.size then buf[..code] else []);
      if t.aimed && t.stamped && Files(v, disk) == Some(s.files) {
        assert DidReadFile(v, sb, disk, driver.device.disk, slot, c.size, Seconds(c.clock), out, buf[..], t);
        CountFits(v, sb, disk, driver.device.disk, slot, c.size, Seconds(c.clock), out, buf[..], t, s.files);
        ReadSuffered(v, disk, driver.device.disk, s, c, out, buf[..], t, reply);
      }
    }

    method WriteOnAny(c: Call, ghost v: Volume, ghost s: State) returns (reply: Reply, ghost t: Transfer)
      requires Valid() && v.sb == sb && s.fds == fds[..] && Meant(s, c) && c.Write?
      requires IsOpen(s.fds, c.fd) && fds[c.fd].pos + |c.data| <= MAX_FILE
      modifies Repr()
      ensures Valid() && fds[..] == s.fds
      ensures Logged(sb, s.fds[c.fd].ino, reply.code, t, old(driver.device.trace), driver.device.trace)
      ensures t.aimed && t.stamped && Files(v, old(driver.device.disk)) == Some(s.files) ==>
        && Files(v, driver.device.disk).Some?
        && Suffered(s, c, State(Files(v, driver.device.disk).value, s.fds), t, reply)
    {
      hide Files, Suffered, WroteFile, Logged, Servable, Step;
      ghost var disk, slot := driver.device.disk, s.fds[c.fd];
      var buf := UserBuffer(c);
      assert buf[..|c.data|] == c.data;
      var code;
      code, t := WriteS(c.fd, buf, |c.data|, c.clock);
      LoggedCode(sb, slot.ino, code, t, old(driver.device.trace), driver.device.trace);
      reply := Reply(code, []);
      if t.aimed && t.stamped && Files(v, disk) == Some(s.files) {
        assert buf[..|c.data|] == c.data;
        assert WroteFile(v, sb, disk, driver.device.disk, slot, c.data, Seconds(c.clock), t);
        WriteSuffered(v, disk, driver.device.disk, s, c, t, reply);
      }
    }

    /** One call on any device. */
    method CallOnAny(c: Call, ghost v: Volume, ghost s: State) returns (reply: Reply, ghost t: Transfer)
      requires Valid() && v.sb == sb && s.fds == fds[..] && Meant(s, c) && !c.Open?
      requires forall ino :: ino in s.files ==> |s.files[ino].bytes| <= MAX_FILE
      modifies Repr()
      ensures Valid() && fds[..] == Meaning(s, c).0.fds
      ensures |old(driver.device.trace)| <= |driver.device.trace|
      ensures driver.device.trace[..|old(driver.device.trace)|] == old(driver.device.trace)
      ensures AllArrived(sb, driver.device.trace[|old(driver.device.trace)|..]) ==> t.aimed
      ensures !t.stamped ==> reply.code == -1
      ensures t.aimed && t.stamped && Files(v, old(driver.device.disk)) == Some(s.files) ==>
        && Files(v, driver.device.disk).Some?
        && Suffered(s, c, State(Files(v, driver.device.disk).value, fds[..]), t, reply)
    {
      hide Files, Logged, ToInt32, Seconds, Splice;
      reply, t := Reply(-1, []), Transfer(true, [], 0, 0, true);
      match c
      case Seek(fd, off, whence) =>
        var code := SeekS(fd, off, whence);
        reply := Reply(code, []);
      case Read(fd, size, clock) =>
        var open := IsFdOpen(fd);
        if open && size > 0 {
          reply, t := ReadOnAny(c, v, s);
          LoggedTrace(sb, s.fds[fd].ino, reply.code, t, old(driver.device.trace), driver.device.trace);
        } else {
          reply := Reply(if open then 0 else -1, []);
        }
      case Write(fd, data, clock) =>
        var open := IsFdOpen(fd);
        if open {
          reply, t := WriteOnAny(c, v, s);
          LoggedTrace(sb, s.fds[fd].ino, reply.code, t, old(driver.device.trace), driver.device.trace);
        }
      case Close(number) =>
        var code := CloseFd(number);
        reply := Reply(code, []);
    }

    /** Any list of calls that opens nothing, on any device. As long as no request for a group
        descriptor failed and every stamp was stored, the run is suffered as the abstract relation
        says, and so the bytes of every file that it does not write to stay as they were. A stamp
        that fails shows as the number -1. */
    method CallsOnAny(cs: seq<Call>, ghost v: Volume, ghost s: State)
      returns (replies: seq<Reply>, ghost ts: seq<Transfer>)
      requires Valid() && v.sb == sb && Files(v, driver.device.disk) == Some(s.files)
      requires s.fds == fds[..] && RunMeant(s, cs) && OpensNothing(cs)
      modifies Repr()
      ensures Valid() && fds[..] == RunMeaning(s, cs).0.fds && |ts| == |cs| == |replies|
      ensures forall i :: 0 <= i < |cs| && !ts[i].stamped ==> replies[i].code == -1
      ensures |old(driver.device.trace)| <= |driver.device.trace|
      ensures AllArrived(sb, driver.device.trace[|old(driver.device.trace)|..]) ==> AllAimed(ts)
      ensures AllAimed(ts) && AllStamped(ts) ==>
        && Files(v, driver.device.disk).Some?
        && var s' := State(Files(v, driver.device.disk).value, fds[..]);
        && RunSuffered(s, cs, s', ts, replies)
        && forall ino: u32 :: ino in s.files && RunAvoids(s, cs, ino) ==>
             ino in s'.files && s'.files[ino].bytes == s.files[ino].bytes
    {
      hide Going, Files, Meant, Meaning, Suffered, RunSuffered, AllArrived, AllAimed, AllStamped;
      hide SameShape, RunMeant, RunMeaning, OpensNothing, RunAvoids;
      replies, ts := [], [];
      ghost var now, trace0 := s, driver.device.trace;
      FilesFit(v, driver.device.disk, s.files);
      GoingStarts(v, s, cs, driver.device.disk);
      NoneYet(sb, trace0);
      for i := 0 to |cs|
        invariant Valid() && |ts| == i == |replies|
        invariant Going(v, s, cs, i, now, driver.device.disk, fds[..], ts, replies)
        invariant now.fds == fds[..]
        invariant forall k :: 0 <= k < i && !ts[k].stamped ==> replies[k].code == -1
        invariant |trace0| <= |driver.device.trace| && driver.device.trace[..|trace0|] == trace0
        invariant AllArrived(sb, driver.device.trace[|trace0|..]) ==> AllAimed(ts)
      {
        ghost var disk, trace, table := driver.device.disk, driver.device.trace, fds[..];
        GoingCall(v, s, cs, i, now, disk, table, ts, replies);
        var reply;
        ghost var t;
        reply, t := CallOnAny(cs[i], v, now);
        now := GoingOn(v, s, cs, i, now, disk, driver.device.disk, table, fds[..], ts, replies, t, reply);
        GoingTable(v, s, cs, i + 1, now, driver.device.disk, fds[..], ts + [t], replies + [reply]);
        ArrivedParts(sb, trace0, trace, driver.device.trace);
        SoundSoFar(ts, t);
        replies, ts := replies + [reply], ts + [t];
      }
      GoingEnds(v, s, cs, now, driver.device.disk, fds[..], ts, replies);
    }
  }
}

/** The file descriptor table and the system calls on it. */
module Descriptors {
  import opened Words
  import opened Bytes
  import opened Ext2Disk
  import opened Volumes
  import opened Paths
  import opened Trees

  const MAX_FD: nat := 100

  datatype Handlers = NoHandlers | StdoutHandlers | DiskHandlers

  /** One slot of the table. Closing keeps position and inode; opening does not reset the position. */
  datatype Slot = Slot(open: bool, pos: u64, ino: u32, handlers: Handlers)

  datatype Whence = SeekSet | SeekCur | SeekEnd | OtherWhence

  datatype Call =
    | Seek(fd: u64, off: int, whence: Whence)
    | Read(fd: u64, size: nat, clock: u64)
    | Write(fd: u64, data: seq<byte>, clock: u64)
    | Close(number: int)
    | Open(path: seq<byte>)

  /** The returned number and, for a read, the bytes delivered. */
  datatype Reply = Reply(code: int, data: seq<byte>)

  predicate IsOpen(fds: seq<Slot>, fd: nat) {
    fd < |fds| && fds[fd].open
  }

  /** The clock counts nanoseconds; a stamp keeps 32 bits of seconds. */
  function Seconds(clock: u64): u32 {
    Wrap32(clock / 1000000000)
  }

  // ----- what the calls do to the disk and the table

  /** The position after a seek, or nothing where the call is refused. */
  function SeekTo(pos: u64, off: int, whence: Whence): Option<u64> {
    match whence
    case SeekSet => Some(Wrap64(off))
    case SeekCur => Some(Wrap64(pos + off))
    case SeekEnd => None
    case OtherWhence => None
  }

  function Closed(s: Slot): Slot {
    s.(open := false, handlers := NoHandlers)
  }

  /** The lowest closed slot, or the length of the table when all are open. */
  function LowestClosed(fds: seq<Slot>): (k: nat)
    ensures k <= |fds| && (k < |fds| ==> !fds[k].open)
    ensures forall i :: 0 <= i < k ==> fds[i].open
  {
    if fds == [] || !fds[0].open then 0 else 1 + LowestClosed(fds[1..])
  }

  /** Opening keeps the old position of the slot. */
  function Opened(s: Slot, ino: u32): Slot {
    Slot(true, s.pos, ino, DiskHandlers)
  }

  /** The number that a path resolves to, given what the slot held; the last fetch does not affect
      it. */
  ghost function OpenNumber(sb: Superblock, disk: seq<byte>, cs: seq<seq<byte>>, ino0: u32): u32
    requires Resolvable(disk, sb, cs)
  {
    FromRoot(disk, sb, cs, ino0, seq(INODE, _ => 0), Blank(|cs| + 1)).ino
  }

  /** The resolution of the path ends, and only the last accepted entry may lack a group
      descriptor. */
  ghost predicate Openable(sb: Superblock, disk: seq<byte>, cs: seq<seq<byte>>) {
    && Resolvable(disk, sb, cs)
    && (cs != [] ==> SettledFromRoot(disk, sb, cs, |cs| - 1))
  }

  /** Whatever the buffers hold, the resolution reports that number. */
  lemma OpenNumberFixed(sb: Superblock, disk: seq<byte>, cs: seq<seq<byte>>, ino0: u32,
                        inode0: seq<byte>, helds: seq<seq<byte>>)
    requires Openable(sb, disk, cs) && inode0 == seq(INODE, _ => 0) && Buffers(helds, |cs| + 1)
    ensures FromRoot(disk, sb, cs, ino0, inode0, helds).ino == OpenNumber(sb, disk, cs, ino0)
  {
    hide Walkable, Settled, SettledFromRoot, Resolvable;
    if cs != [] {
      RootHeldsIrrelevant(disk, sb, cs, |cs| - 1, ino0, inode0, helds, Blank(|cs| + 1));
    }
  }

  /** Storing a stamp, and whether it worked. */
  ghost function Stamped(sb: Superblock, disk: seq<byte>, ino: u32, f: Stamp, t: u32): (seq<byte>, bool)
    requires sb.inodesPerGroup > 0 && GroupOnDisk(disk, sb, ino)
  {
    if InodeAt(disk, sb, ino).Some? then
      (Splice(disk, InodePos(disk, sb, ino) + StampOffset(f), ToLe(t, 4)), true)
    else (disk, false)
  }

  /** What the disk must offer for a transfer that cannot fail. */
  ghost predicate Transferable(sb: Superblock, disk: seq<byte>, s: Slot, n: nat) {
    && sb.inodesPerGroup > 0 && GroupOnDisk(disk, sb, s.ino) && s.pos + n <= MAX_FILE
    && var stored := InodeAt(disk, sb, s.ino);
    stored.Some? ==> FileOnDisk(disk, stored.value, s.pos, n)
  }

  ghost function WriteCall(sb: Superblock, disk: seq<byte>, s: Slot, data: seq<byte>, t: u32)
    : (r: (seq<byte>, Reply))
    requires Transferable(sb, disk, s, |data|)
    ensures |r.0| == |disk|
  {
    var stored := InodeAt(disk, sb, s.ino);
    if stored.None? then (disk, Reply(-1, []))
    else
      var (disk', ok) := Stamped(sb, Scatter(disk, stored.value, s.pos, data), s.ino, MTime, t);
      (disk', Reply(if ok then |data| else -1, []))
  }

  ghost function ReadCall(sb: Superblock, disk: seq<byte>, s: Slot, n: nat, t: u32)
    : (r: (seq<byte>, Reply))
    requires Transferable(sb, disk, s, n)
    ensures |r.0| == |disk|
  {
    var stored := InodeAt(disk, sb, s.ino);
    if stored.None? then (disk, Reply(-1, []))
    else
      var (disk', ok) := Stamped(sb, disk, s.ino, ATime, t);
      (disk', Reply(if ok then n else -1, Gather(disk, stored.value, s.pos, n)))
  }

  /** Calls the table and the disk can serve: an open descriptor carries the disk handlers and its
      range is transferable. */
  ghost predicate Servable(sb: Superblock, disk: seq<byte>, fds: seq<Slot>, c: Call) {
    match c
    case Seek(fd, _, _) => IsOpen(fds, fd) ==> fds[fd].handlers == DiskHandlers
    case Read(fd, n, _) =>
      IsOpen(fds, fd) ==>
        fds[fd].handlers == DiskHandlers && (n > 0 ==> Transferable(sb, disk, fds[fd], n))
    case Write(fd, data, _) =>
      IsOpen(fds, fd) ==>
        fds[fd].handlers == DiskHandlers && Transferable(sb, disk, fds[fd], |data|)
    case Close(_) => true
    case Open(path) =>
      0 !in path && (LowestClosed(fds) < |fds| ==> Openable(sb, disk, Components(path)))
  }

  /** One system call on a device that does not fail. */
  ghost function Step(sb: Superblock, disk: seq<byte>, fds: seq<Slot>, c: Call)
    : (r: (seq<byte>, seq<Slot>, Reply))
    requires Servable(sb, disk, fds, c)
    ensures |r.0| == |disk| && |r.1| == |fds|
  {
    match c
    case Seek(fd, off, whence) =>
      if !IsOpen(fds, fd) then (disk, fds, Reply(-1, []))
      else (
        match SeekTo(fds[fd].pos, off, whence)
        case None => (disk, fds, Reply(-1, []))
        case Some(p) => (disk, fds[fd := fds[fd].(pos := p)], Reply(ToInt32(p), [])))
    case Read(fd, n, clock) =>
      if !IsOpen(fds, fd) then (disk, fds, Reply(-1, []))
      else if n == 0 then (disk, fds, Reply(0, []))
      else
        var (disk', reply) := ReadCall(sb, disk, fds[fd], n, Seconds(clock));
        (disk', fds, reply)
    case Write(fd, data, clock) =>
      if !IsOpen(fds, fd) then (disk, fds, Reply(-1, []))
      else
        var (disk', reply) := WriteCall(sb, disk, fds[fd], data, Seconds(clock));
        (disk', fds, reply)
    case Close(fd) =>
      if fd < 0 || !IsOpen(fds, fd) then (disk, fds, Reply(-1, []))
      else (disk, fds[fd := Closed(fds[fd])], Reply(0, []))
    case Open(path) =>
      var fd := LowestClosed(fds);
      if fd == |fds| then (disk, fds, Reply(-1, []))
      else
        var ino := OpenNumber(sb, disk, Components(path), fds[fd].ino);
        (disk, fds[fd := Opened(fds[fd], ino)], Reply(fd, []))
  }

  // ----- what the calls mean

  /** Files by inode number and the descriptor table: all a user can observe. */
  datatype State = State(files: map<u32, File>, fds: seq<Slot>)

  /** The calls the file system is meant for: an open descriptor names a file of the volume and the
      range lies inside it; a path leads through files that are well-formed directories. */
  predicate Meant(s: State, c: Call) {
    match c
    case Seek(fd, _, _) => IsOpen(s.fds, fd) ==> s.fds[fd].handlers == DiskHandlers
    case Read(fd, n, _) => IsOpen(s.fds, fd) ==> InFile(s.files, s.fds[fd], n)
    case Write(fd, data, _) => IsOpen(s.fds, fd) ==> InFile(s.files, s.fds[fd], |data|)
    case Close(_) => true
    case Open(path) =>
      0 !in path && (LowestClosed(s.fds) < |s.fds| ==> Enterable(s.files, ROOT, Components(path)))
  }

  predicate InFile(files: map<u32, File>, slot: Slot, n: nat) {
    && slot.handlers == DiskHandlers && slot.ino in files
    && slot.pos + n <= |files[slot.ino].bytes|
  }

  /** The meaning of a call: no blocks, sectors or disk. */
  function Meaning(s: State, c: Call): (r: (State, Reply))
    requires Meant(s, c)
    ensures |r.0.fds| == |s.fds|
  {
    match c
    case Seek(fd, off, whence) =>
      if !IsOpen(s.fds, fd) then (s, Reply(-1, []))
      else (
        match SeekTo(s.fds[fd].pos, off, whence)
        case None => (s, Reply(-1, []))
        case Some(p) => (s.(fds := s.fds[fd := s.fds[fd].(pos := p)]), Reply(ToInt32(p), [])))
    case Read(fd, n, clock) =>
      if !IsOpen(s.fds, fd) then (s, Reply(-1, []))
      else if n == 0 then (s, Reply(0, []))
      else
        var slot := s.fds[fd];
        var f := s.files[slot.ino];
        (s.(files := s.files[slot.ino := f.(atime := Seconds(clock))]),
         Reply(n, f.bytes[slot.pos..slot.pos + n]))
    case Write(fd, data, clock) =>
      if !IsOpen(s.fds, fd) then (s, Reply(-1, []))
      else
        var slot := s.fds[fd];
        var f := s.files[slot.ino];
        (s.(files := s.files[slot.ino := f.(bytes := Splice(f.bytes, slot.pos, data),
                                            mtime := Seconds(clock))]),
         Reply(|data|, []))
    case Close(fd) =>
      if fd < 0 || !IsOpen(s.fds, fd) then (s, Reply(-1, []))
      else (s.(fds := s.fds[fd := Closed(s.fds[fd])]), Reply(0, []))
    case Open(path) =>
      var fd := LowestClosed(s.fds);
      if fd == |s.fds| then (s, Reply(-1, []))
      else
        var ino := Named(s.files, ROOT, Components(path), s.fds[fd].ino);
        (s.(fds := s.fds[fd := Opened(s.fds[fd], ino)]), Reply(fd, []))
  }

  lemma MeantIsTransferable(v: Volume, disk: seq<byte>, files: map<u32, File>, slot: Slot, n: nat)
    requires Files(v, disk) == Some(files) && InFile(files, slot, n)
    ensures Transferable(v.sb, disk, slot, n)
  {
    FileFacts(v, disk, files, slot.ino, slot.pos, n);
  }

  lemma MeantIsServable(v: Volume, disk: seq<byte>, s: State, c: Call)
    requires Files(v, disk) == Some(s.files) && Meant(s, c)
    ensures Servable(v.sb, disk, s.fds, c)
  {
    hide Transferable, Files, Openable, Enterable, Components, OpenNumber;
    match c
    case Seek(_, _, _) =>
    case Read(fd, n, _) =>
      if IsOpen(s.fds, fd) { MeantIsTransferable(v, disk, s.files, s.fds[fd], n); }
    case Write(fd, data, _) =>
      if IsOpen(s.fds, fd) { MeantIsTransferable(v, disk, s.files, s.fds[fd], |data|); }
    case Close(_) =>
    case Open(path) =>
      if LowestClosed(s.fds) < |s.fds| { OpenMeans(v, disk, s.files, path, 0); }
  }

  /** A path resolves on the disk to the number it names among the files. */
  lemma OpenMeans(v: Volume, disk: seq<byte>, files: map<u32, File>, path: seq<byte>, ino0: u32)
    requires Files(v, disk) == Some(files) && Enterable(files, ROOT, Components(path))
    ensures Openable(v.sb, disk, Components(path))
    ensures OpenNumber(v.sb, disk, Components(path), ino0)
         == Named(files, ROOT, Components(path), ino0)
  {
    hide Files, Enterable, Named, Components, FromRoot, SettledFromRoot, Resolvable;
    var cs := Components(path);
    PathMeans(v, disk, files, cs, ino0, seq(INODE, _ => 0), Blank(|cs| + 1));
  }

  /** Storing a stamp on the disk sets it in the file. */
  lemma StampMeans(v: Volume, disk: seq<byte>, files: map<u32, File>, ino: u32, f: Stamp, t: u32)
    requires Files(v, disk) == Some(files) && ino in files
    ensures v.sb.inodesPerGroup > 0 && GroupOnDisk(disk, v.sb, ino)
    ensures var (disk', ok) := Stamped(v.sb, disk, ino, f, t);
      ok && Files(v, disk') == Some(files[ino := WithStamp(files[ino], f, t)])
  {
    hide InodeAt, Files, GroupOnDisk, InodePos, Splice;
    FileFacts(v, disk, files, ino, 0, 0);
    FileStamped(v, disk, files, ino, f, t);
  }

  lemma ReadMeans(v: Volume, disk: seq<byte>, files: map<u32, File>, slot: Slot, n: nat, t: u32)
    requires Files(v, disk) == Some(files) && InFile(files, slot, n)
    ensures Transferable(v.sb, disk, slot, n)
    ensures var (disk', reply) := ReadCall(v.sb, disk, slot, n, t);
      var f := files[slot.ino];
      && Files(v, disk') == Some(files[slot.ino := f.(atime := t)])
      && reply == Reply(n, f.bytes[slot.pos..slot.pos + n])
  {
    hide InodeAt, Files, GroupOnDisk, FileOnDisk, Gather, Stamped;
    FileFacts(v, disk, files, slot.ino, slot.pos, n);
    StampMeans(v, disk, files, slot.ino, ATime, t);
  }

  lemma WriteMeans(v: Volume, disk: seq<byte>, files: map<u32, File>, slot: Slot, data: seq<byte>,
                   t: u32)
    requires Files(v, disk) == Some(files) && InFile(files, slot, |data|)
    ensures Transferable(v.sb, disk, slot, |data|)
    ensures var (disk', reply) := WriteCall(v.sb, disk, slot, data, t);
      var f := files[slot.ino];
      && Files(v, disk')
         == Some(files[slot.ino := f.(bytes := Splice(f.bytes, slot.pos, data), mtime := t)])
      && reply == Reply(|data|, [])
  {
    hide InodeAt, Files, GroupOnDisk, FileOnDisk, Scatter, Splice, Stamped;
    FileFacts(v, disk, files, slot.ino, slot.pos, |data|);
    var inode := InodeAt(disk, v.sb, slot.ino).value;
    var f := files[slot.ino];
    var f1 := f.(bytes := Splice(f.bytes, slot.pos, data));
    FileWritten(v, disk, files, slot.ino, slot.pos, data, inode);
    StampMeans(v, Scatter(disk, inode, slot.pos, data), files[slot.ino := f1], slot.ino, MTime, t);
    assert files[slot.ino := f1][slot.ino := f1.(mtime := t)] == files[slot.ino := f1.(mtime := t)];
  }

  /** One system call on the disk does what the call means, and keeps the layout. */
  lemma StepMeans(v: Volume, disk: seq<byte>, s: State, c: Call)
    requires Files(v, disk) == Some(s.files) && Meant(s, c)
    ensures Servable(v.sb, disk, s.fds, c)
    ensures var (disk', fds', reply) := Step(v.sb, disk, s.fds, c);
      var (s', reply') := Meaning(s, c);
      Files(v, disk') == Some(s'.files) && fds' == s'.fds && reply == reply'
  {
    hide Transferable, ReadCall, WriteCall, Files, Splice, SeekTo, Closed, Seconds, ToInt32;
    hide Openable, Enterable, Components, OpenNumber, Named;
    MeantIsServable(v, disk, s, c);
    match c
    case Seek(_, _, _) =>
    case Read(fd, n, clock) =>
      if IsOpen(s.fds, fd) && n > 0 {
        ReadMeans(v, disk, s.files, s.fds[fd], n, Seconds(clock));
      }
    case Write(fd, data, clock) =>
      if IsOpen(s.fds, fd) {
        WriteMeans(v, disk, s.files, s.fds[fd], data, Seconds(clock));
      }
    case Close(_) =>
    case Open(path) =>
      var fd := LowestClosed(s.fds);
      if fd < |s.fds| {
        OpenMeans(v, disk, s.files, path, s.fds[fd].ino);
      }
  }

  // ----- whole runs

  ghost predicate RunServable(sb: Superblock, disk: seq<byte>, fds: seq<Slot>, cs: seq<Call>)
    decreases |cs|
  {
    cs == [] ||
    (Servable(sb, disk, fds, cs[0]) &&
     var (disk', fds', _) := Step(sb, disk, fds, cs[0]);
     RunServable(sb, disk', fds', cs[1..]))
  }

  ghost function Run(sb: Superblock, disk: seq<byte>, fds: seq<Slot>, cs: seq<Call>)
    : (seq<byte>, seq<Slot>, seq<Reply>)
    requires RunServable(sb, disk, fds, cs)
    decreases |cs|
  {
    if cs == [] then (disk, fds, [])
    else
      var (disk', fds', reply) := Step(sb, disk, fds, cs[0]);
      var (disk'', fds'', replies) := Run(sb, disk', fds', cs[1..]);
      (disk'', fds'', [reply] + replies)
  }

  predicate RunMeant(s: State, cs: seq<Call>)
    decreases |cs|
  {
    cs == [] || (Meant(s, cs[0]) && RunMeant(Meaning(s, cs[0]).0, cs[1..]))
  }

  function RunMeaning(s: State, cs: seq<Call>): (r: (State, seq<Reply>))
    requires RunMeant(s, cs)
    ensures |r.1| == |cs|
    decreases |cs|
  {
    if cs == [] then (s, [])
    else
      var (s', reply) := Meaning(s, cs[0]);
      var (s'', replies) := RunMeaning(s', cs[1..]);
      (s'', [reply] + replies)
  }

  /** Every run of calls over any set of descriptors agrees with the map of files: the replies are
      those of the abstract run, and the final disk stands for its final state. */
  lemma {:induction false} RunMeans(v: Volume, disk: seq<byte>, s: State, cs: seq<Call>)
    requires Files(v, disk) == Some(s.files) && RunMeant(s, cs)
    ensures RunServable(v.sb, disk, s.fds, cs)
    ensures var (disk', fds', replies) := Run(v.sb, disk, s.fds, cs);
      var (s', replies') := RunMeaning(s, cs);
      Files(v, disk') == Some(s'.files) && fds' == s'.fds && replies == replies'
    decreases |cs|
  {
    hide Step, Meaning, Servable, Meant, Files;
    if cs != [] {
      StepMeans(v, disk, s, cs[0]);
      var (disk', fds', _) := Step(v.sb, disk, s.fds, cs[0]);
      RunMeans(v, disk', Meaning(s, cs[0]).0, cs[1..]);
    }
  }

  /** The call writes to this file. */
  predicate Writes(fds: seq<Slot>, c: Call, ino: u32) {
    c.Write? && IsOpen(fds, c.fd) && fds[c.fd].ino == ino
  }

  /** No call of the run writes to this file, through whatever descriptor names it by then. */
  predicate RunAvoids(s: State, cs: seq<Call>, ino: u32)
    requires RunMeant(s, cs)
    decreases |cs|
  {
    cs == [] || (!Writes(s.fds, cs[0], ino) && RunAvoids(Meaning(s, cs[0]).0, cs[1..], ino))
  }

  lemma BytesKept(s: State, c: Call, ino: u32)
    requires Meant(s, c) && ino in s.files && !Writes(s.fds, c, ino)
    ensures var s' := Meaning(s, c).0;
      ino in s'.files && s'.files[ino].bytes == s.files[ino].bytes
  {
    hide Splice, Seconds, Enterable, Named, Components;
  }

  /** A run that does not write to a file leaves its bytes alone, whatever else it does. */
  lemma {:induction false} BytesUntouched(s: State, cs: seq<Call>, ino: u32)
    requires RunMeant(s, cs) && ino in s.files && RunAvoids(s, cs, ino)
    ensures var s' := RunMeaning(s, cs).0;
      ino in s'.files && s'.files[ino].bytes == s.files[ino].bytes
    decreases |cs|
  {
    hide Meaning, Meant, Writes;
    if cs != [] {
      BytesKept(s, cs[0], ino);
      BytesUntouched(Meaning(s, cs[0]).0, cs[1..], ino);
    }
  }

  /** Only opening changes which file a descriptor names, and only opening opens one. */
  lemma InosFixed(s: State, c: Call)
    requires Meant(s, c) && !c.Open?
    ensures forall fd :: 0 <= fd < |s.fds| ==>
      Meaning(s, c).0.fds[fd].ino == s.fds[fd].ino &&
      (Meaning(s, c).0.fds[fd].open ==> s.fds[fd].open)
  {
    hide Splice, Seconds;
  }

  /** In a run that opens nothing it is enough to look at the descriptors it starts with. */
  lemma {:induction false} AvoidsFromStart(s: State, cs: seq<Call>, ino: u32)
    requires RunMeant(s, cs)
    requires forall c :: c in cs ==> !c.Open? && !Writes(s.fds, c, ino)
    ensures RunAvoids(s, cs, ino)
    decreases |cs|
  {
    hide Meaning, Meant;
    if cs != [] {
      var s' := Meaning(s, cs[0]).0;
      assert cs[0] in cs;
      InosFixed(s, cs[0]);
      forall c | c in cs[1..] ensures !c.Open? && !Writes(s'.fds, c, ino) {
        assert c in cs;
        assert !Writes(s.fds, c, ino);
      }
      AvoidsFromStart(s', cs[1..], ino);
    }
  }

  // ----- single calls, in numbers

  /** A clock in nanoseconds below 2^32 seconds is stamped with its second. */
  lemma SecondsExact(clock: u64)
    requires clock < 0x1_0000_0000 * 1000000000
    ensures Seconds(clock) * 1000000000 <= clock < (Seconds(clock) + 1) * 1000000000
  {
  }

  /** The returned number is the signed 32-bit number of the same residue, so one that fits comes
      back as it is. */
  lemma ToInt32Exact(x: int)
    ensures -0x8000_0000 <= ToInt32(x) < 0x8000_0000
    ensures (ToInt32(x) - x) % 0x1_0000_0000 == 0
    ensures -0x8000_0000 <= x < 0x8000_0000 ==> ToInt32(x) == x
  {
  }

  /** Nothing differs but the position of one descriptor. */
  predicate OnlyMoved(s: State, s': State, fd: nat, pos: u64) {
    && s'.files == s.files && |s'.fds| == |s.fds| && fd < |s.fds|
    && s'.fds[fd] == s.fds[fd].(pos := pos)
    && forall k :: 0 <= k < |s.fds| && k != fd ==> s'.fds[k] == s.fds[k]
  }

  /** A seek puts an open disk descriptor to the offset, or on by the offset, and moves nothing else;
      the reply is the new position as a signed 32-bit number. Other kinds of seek are refused. */
  lemma SeekMoves(s: State, fd: u64, off: int, whence: Whence)
    requires IsOpen(s.fds, fd) && s.fds[fd].handlers == DiskHandlers
    ensures Meant(s, Seek(fd, off, whence))
    ensures var (s', reply) := Meaning(s, Seek(fd, off, whence));
      var p := s.fds[fd].pos;
      && reply.data == []
      && (whence == SeekSet ==>
            OnlyMoved(s, s', fd, off % 0x1_0000_0000_0000_0000))
      && (whence == SeekCur ==>
            OnlyMoved(s, s', fd, (p + off) % 0x1_0000_0000_0000_0000))
      && (whence == SeekCur && 0 <= p + off < 0x1_0000_0000_0000_0000 ==>
            OnlyMoved(s, s', fd, p + off))
      && (whence == SeekSet || whence == SeekCur ==>
            && (s'.fds[fd].pos < 0x8000_0000 ==> reply.code == s'.fds[fd].pos)
            && (reply.code - s'.fds[fd].pos) % 0x1_0000_0000 == 0
            && -0x8000_0000 <= reply.code < 0x8000_0000)
      && (whence == SeekEnd || whence == OtherWhence ==> s' == s && reply.code == -1)
  {
  }

  /** Going to `a` and on by `b` is going to `a + b`, also where that wraps around. */
  lemma SeeksAdd(s: State, fd: u64, a: int, b: int)
    requires IsOpen(s.fds, fd) && s.fds[fd].handlers == DiskHandlers
    ensures Meant(s, Seek(fd, a, SeekSet)) && Meant(s, Seek(fd, a + b, SeekSet))
    ensures var s1 := Meaning(s, Seek(fd, a, SeekSet)).0;
      Meant(s1, Seek(fd, b, SeekCur))
      && Meaning(s1, Seek(fd, b, SeekCur)) == Meaning(s, Seek(fd, a + b, SeekSet))
  {
    WrapAdd(a, b);
    var s1 := Meaning(s, Seek(fd, a, SeekSet)).0;
    assert s1.fds[fd := s1.fds[fd].(pos := Wrap64(a + b))] == s.fds[fd := s.fds[fd].(pos := Wrap64(a + b))];
  }

  lemma WrapAdd(a: int, b: int)
    ensures Wrap64(Wrap64(a) + b) == Wrap64(a + b)
  {
  }

  /** A close of an open descriptor: it is closed and without handlers, keeps position and inode, and
      nothing else changes. From then on it is refused to every call until it is opened again. */
  lemma CloseEnds(s: State, fd: u64)
    requires IsOpen(s.fds, fd)
    ensures Meant(s, Close(fd))
    ensures var (s', reply) := Meaning(s, Close(fd));
      && reply == Reply(0, []) && s'.files == s.files && |s'.fds| == |s.fds|
      && !s'.fds[fd].open && s'.fds[fd].handlers == NoHandlers
      && s'.fds[fd].pos == s.fds[fd].pos && s'.fds[fd].ino == s.fds[fd].ino
      && (forall k :: 0 <= k < |s.fds| && k != fd ==> s'.fds[k] == s.fds[k])
    ensures var s' := Meaning(s, Close(fd)).0;
      forall c :: OnDescriptor(c, fd) ==> Meant(s', c) && Meaning(s', c) == (s', Reply(-1, []))
  {
  }

  /** The call names this descriptor. */
  predicate OnDescriptor(c: Call, fd: int) {
    match c
    case Seek(n, _, _) => n == fd
    case Read(n, _, _) => n == fd
    case Write(n, _, _) => n == fd
    case Close(n) => n == fd
    case Open(_) => false
  }

  /** The descriptor just closed is the next one given out if every lower one is open; it then has
      the position it had. */
  lemma ClosedIsReused(s: State, fd: u64, path: seq<byte>)
    requires IsOpen(s.fds, fd) && forall k :: 0 <= k < fd ==> s.fds[k].open
    requires Meant(s, Close(fd)) && Meant(Meaning(s, Close(fd)).0, Open(path))
    ensures var (s'', reply) := Meaning(Meaning(s, Close(fd)).0, Open(path));
      && reply == Reply(fd, []) && |s''.fds| == |s.fds|
      && s''.fds[fd].open && s''.fds[fd].pos == s.fds[fd].pos
      && s''.fds[fd].handlers == DiskHandlers
  {
    hide Enterable, Named, Components;
    CloseEnds(s, fd);
    var s' := Meaning(s, Close(fd)).0;
    LowestIs(s'.fds, fd);
  }

  lemma {:induction false} LowestIs(fds: seq<Slot>, k: nat)
    requires k < |fds| && !fds[k].open && forall i :: 0 <= i < k ==> fds[i].open
    ensures LowestClosed(fds) == k
    decreases k
  {
    if k > 0 {
      assert fds[0].open && fds[1..][k - 1] == fds[k];
      LowestIs(fds[1..], k - 1);
    }
  }

  /** The state after a seek to `pos` on an open disk descriptor. */
  function Sought(s: State, fd: u64, pos: u64): State
    requires IsOpen(s.fds, fd)
  {
    s.(fds := s.fds[fd := s.fds[fd].(pos := pos)])
  }

  lemma SeekThere(s: State, fd: u64, pos: u64)
    requires IsOpen(s.fds, fd) && s.fds[fd].handlers == DiskHandlers
    ensures Meant(s, Seek(fd, pos, SeekSet))
    ensures Meaning(s, Seek(fd, pos, SeekSet)).0 == Sought(s, fd, pos)
  {
  }

  lemma WriteThere(s: State, fd: u64, data: seq<byte>, t: u64)
    requires IsOpen(s.fds, fd) && InFile(s.files, s.fds[fd], |data|)
    ensures Meant(s, Write(fd, data, t))
    ensures var s' := Meaning(s, Write(fd, data, t)).0;
      && s'.fds == s.fds && InFile(s'.files, s.fds[fd], |data|)
      && s'.files[s.fds[fd].ino].bytes == Splice(s.files[s.fds[fd].ino].bytes, s.fds[fd].pos, data)
  {
    hide Splice, Seconds;
  }

  lemma ReadThere(s: State, fd: u64, bytes: seq<byte>, data: seq<byte>, t: u64)
    requires IsOpen(s.fds, fd) && InFile(s.files, s.fds[fd], |data|) && data != []
    requires s.fds[fd].pos + |data| <= |bytes|
    requires s.files[s.fds[fd].ino].bytes == Splice(bytes, s.fds[fd].pos, data)
    ensures Meant(s, Read(fd, |data|, t))
    ensures Meaning(s, Read(fd, |data|, t)).1 == Reply(|data|, data)
  {
    hide Splice, Seconds;
    SpliceReadBack(bytes, s.fds[fd].pos, data);
  }

  /** Seek, write, seek back and read: what was written comes back, on any disk descriptor. */
  lemma WrittenIsReadBack(s: State, fd: u64, pos: u64, data: seq<byte>, t: u64, t': u64)
    requires IsOpen(s.fds, fd) && InFile(s.files, s.fds[fd].(pos := pos), |data|) && data != []
    ensures var cs := [Seek(fd, pos, SeekSet), Write(fd, data, t),
                       Seek(fd, pos, SeekSet), Read(fd, |data|, t')];
      RunMeant(s, cs) && RunMeaning(s, cs).1[3] == Reply(|data|, data)
  {
    hide Meaning, Meant, Splice;
    var c1, c2, c4 := Seek(fd, pos, SeekSet), Write(fd, data, t), Read(fd, |data|, t');
    SeekThere(s, fd, pos);
    var s1 := Sought(s, fd, pos);
    WriteThere(s1, fd, data, t);
    var s2 := Meaning(s1, c2).0;
    SeekThere(s2, fd, pos);
    assert Sought(s2, fd, pos) == s2;
    ReadThere(s2, fd, s.files[s.fds[fd].ino].bytes, data, t');
    RunFour(s, c1, c2, c1, c4);
  }

  /** Open a path, seek, write, seek back and read: the descriptor is the lowest closed one, and what
      was written to the file that the path names comes back. */
  lemma OpenedWrittenReadBack(s: State, path: seq<byte>, pos: u64, data: seq<byte>, t: u64, t': u64)
    requires LowestClosed(s.fds) < |s.fds| <= MAX_FD && Meant(s, Open(path)) && data != []
    requires var ino := Named(s.files, ROOT, Components(path), s.fds[LowestClosed(s.fds)].ino);
      ino in s.files && pos + |data| <= |s.files[ino].bytes|
    ensures var fd := LowestClosed(s.fds);
      var cs := [Open(path), Seek(fd, pos, SeekSet), Write(fd, data, t),
                 Seek(fd, pos, SeekSet), Read(fd, |data|, t')];
      && RunMeant(s, cs) && RunMeaning(s, cs).1[0] == Reply(fd, [])
      && RunMeaning(s, cs).1[4] == Reply(|data|, data)
  {
    hide Enterable, Named, Components, RunMeant, RunMeaning;
    var fd := LowestClosed(s.fds);
    var s1 := Meaning(s, Open(path)).0;
    WrittenIsReadBack(s1, fd, pos, data, t, t');
    var seek, write, read := Seek(fd, pos, SeekSet), Write(fd, data, t), Read(fd, |data|, t');
    RunFirst(s, Open(path), [seek, write, seek, read]);
    assert [Open(path)] + [seek, write, seek, read] == [Open(path), seek, write, seek, read];
  }

  /** A run by its first call and the rest. */
  lemma RunFirst(s: State, c: Call, cs: seq<Call>)
    requires Meant(s, c) && RunMeant(Meaning(s, c).0, cs)
    ensures RunMeant(s, [c] + cs)
    ensures RunMeaning(s, [c] + cs).0 == RunMeaning(Meaning(s, c).0, cs).0
    ensures RunMeaning(s, [c] + cs).1 == [Meaning(s, c).1] + RunMeaning(Meaning(s, c).0, cs).1
  {
    hide Meant, Meaning;
    assert ([c] + cs)[1..] == cs;
  }

  /** A run of four calls, one after the other. */
  lemma RunFour(s: State, c1: Call, c2: Call, c3: Call, c4: Call)
    requires Meant(s, c1)
    requires Meant(Meaning(s, c1).0, c2)
    requires Meant(Meaning(Meaning(s, c1).0, c2).0, c3)
    requires Meant(Meaning(Meaning(Meaning(s, c1).0, c2).0, c3).0, c4)
    ensures var s3 := Meaning(Meaning(Meaning(s, c1).0, c2).0, c3).0;
      RunMeant(s, [c1, c2, c3, c4]) && RunMeaning(s, [c1, c2, c3, c4]).1[3] == Meaning(s3, c4).1
  {
    hide Meant, Meaning;
    var s1 := Meaning(s, c1).0;
    var s2 := Meaning(s1, c2).0;
    var s3 := Meaning(s2, c3).0;
    assert [c1, c2, c3, c4][1..] == [c2, c3, c4] && [c2, c3, c4][1..] == [c3, c4];
    assert [c3, c4][1..] == [c4] && [c4][1..] == [];
    assert RunMeant(s3, [c4]) && RunMeaning(s3, [c4]).1[0] == Meaning(s3, c4).1;
    assert RunMeant(s2, [c3, c4]) && RunMeaning(s2, [c3, c4]).1[1] == Meaning(s3, c4).1;
    assert RunMeant(s1, [c2, c3, c4]) && RunMeaning(s1, [c2, c3, c4]).1[2] == Meaning(s3, c4).1;
  }
}

/** Byte-range block I/O built from whole-sector requests on the ring. */
module Blk {
  import opened Words
  import opened Bytes
  import opened Virtio

  function SectorOf(pos: nat): nat { pos / SECTOR }
  function SectorOffset(pos: nat): nat { pos % SECTOR }

  /** How many sectors the bytes `[off, off + n)` lie in. */
  function Span(off: nat, n: nat): nat {
    if n == 0 then 0 else (off + n - 1) / SECTOR - off / SECTOR + 1
  }

  /** Those sectors, each once and in order. */
  function Sectors(off: nat, n: nat): (r: seq<nat>)
    ensures |r| == Span(off, n)
  {
    seq(Span(off, n), k requires 0 <= k => off / SECTOR + k)
  }

  /** The requests of flawless reads of these sectors. */
  function ReadsOf(sectors: seq<nat>): (r: seq<Io>)
    ensures |r| == |sectors|
  {
    seq(|sectors|, k requires 0 <= k < |sectors| => Io(ReadOp, sectors[k], true))
  }

  /** The requests of flawless writes: each sector is read, patched and written back. */
  function WritesOf(sectors: seq<nat>): (r: seq<Io>)
    ensures |r| == 2 * |sectors|
  {
    seq(2 * |sectors|, k requires 0 <= k < 2 * |sectors| =>
      Io(if k % 2 == 0 then ReadOp else WriteOp, sectors[k / 2], true))
  }

  function ReadIos(off: nat, n: nat): seq<Io> { ReadsOf(Sectors(off, n)) }
  function WriteIos(off: nat, n: nat): seq<Io> { WritesOf(Sectors(off, n)) }

  /** The chunks cut a range at sector boundaries. */
  ghost predicate CutAt(off: nat, n: nat) {
    n == 0 || (off + n) % SECTOR == 0
  }

  /** A complete read: the bytes of the flat disk, in one splice of the output. */
  ghost predicate ReadDone(disk: seq<byte>, off: nat, n: nat, start: nat,
                           out: seq<byte>, out': seq<byte>, trace: seq<Io>, trace': seq<Io>)
  {
    && (n > 0 ==> off + n <= |disk|)
    && out' == Splice(out, start, Slice(disk, off, n))
    && trace' == trace + ReadIos(off, n)
  }

  /** A short read: exactly the counted bytes arrived, they end at a sector boundary, and the next
      sector failed. */
  ghost predicate ReadShort(disk: seq<byte>, off: nat, n: nat, start: nat,
                            out: seq<byte>, out': seq<byte>, trace: seq<Io>, trace': seq<Io>)
  {
    && (n > 0 ==> off + n <= |disk|)
    && CutAt(off, n)
    && out' == Splice(out, start, Slice(disk, off, n))
    && trace' == trace + ReadIos(off, n) + [Io(ReadOp, SectorOf(off + n), false)]
  }

  /** A complete write: one splice of the flat disk. */
  ghost predicate WriteDone(disk: seq<byte>, disk': seq<byte>, off: nat, done: seq<byte>,
                            trace: seq<Io>, trace': seq<Io>)
  {
    && (|done| > 0 ==> off + |done| <= |disk|)
    && disk' == Splice(disk, off, done)
    && trace' == trace + WriteIos(off, |done|)
  }

  /** A short write: the counted bytes end at a sector boundary and are in place; the next sector
      failed, and no byte outside it differs from the splice of what was counted. */
  ghost predicate WriteShort(disk: seq<byte>, disk': seq<byte>, off: nat, done: seq<byte>,
                             trace: seq<Io>, trace': seq<Io>)
  {
    var bad := SectorOf(off + |done|);
    && (|done| > 0 ==> off + |done| <= |disk|)
    && CutAt(off, |done|)
    && SameOutside(disk', Splice(disk, off, done), bad * SECTOR, bad * SECTOR + SECTOR)
    && (|| trace' == trace + WriteIos(off, |done|) + [Io(ReadOp, bad, false)]
        || trace' == trace + WriteIos(off, |done|) + [Io(ReadOp, bad, true), Io(WriteOp, bad, false)])
  }

  /** A failed turn: at most the sector that `pos` lies in has changed. */
  ghost predicate PieceFailed(disk: seq<byte>, disk': seq<byte>, pos: nat,
                              trace: seq<Io>, trace': seq<Io>)
  {
    var bad := SectorOf(pos);
    && SameOutside(disk', disk, bad * SECTOR, bad * SECTOR + SECTOR)
    && (|| trace' == trace + [Io(ReadOp, bad, false)]
        || trace' == trace + [Io(ReadOp, bad, true), Io(WriteOp, bad, false)])
  }

  /** A successful turn. */
  ghost predicate PieceWritten(disk: seq<byte>, disk': seq<byte>, pos: nat, piece: seq<byte>,
                               trace: seq<Io>, trace': seq<Io>)
  {
    && pos + |piece| <= |disk|
    && disk' == Splice(disk, pos, piece)
    && trace' == trace + [Io(ReadOp, SectorOf(pos), true), Io(WriteOp, SectorOf(pos), true)]
  }

  lemma ReadsAppend(s: seq<nat>, t: seq<nat>)
    ensures ReadsOf(s + t) == ReadsOf(s) + ReadsOf(t)
  {
  }

  lemma WritesAppend(s: seq<nat>, t: seq<nat>)
    ensures WritesOf(s + t) == WritesOf(s) + WritesOf(t)
  {
  }

  lemma SectorsAppend(off: nat, n: nat, m: nat)
    requires CutAt(off, n)
    ensures Sectors(off, n + m) == Sectors(off, n) + Sectors(off + n, m)
  {
    assert Span(off, n + m) == Span(off, n) + Span(off + n, m);
  }

  lemma ReadIosAppend(off: nat, n: nat, m: nat)
    requires CutAt(off, n)
    ensures ReadIos(off, n + m) == ReadIos(off, n) + ReadIos(off + n, m)
  {
    SectorsAppend(off, n, m);
    ReadsAppend(Sectors(off, n), Sectors(off + n, m));
  }

  lemma WriteIosAppend(off: nat, n: nat, m: nat)
    requires CutAt(off, n)
    ensures WriteIos(off, n + m) == WriteIos(off, n) + WriteIos(off + n, m)
  {
    SectorsAppend(off, n, m);
    WritesAppend(Sectors(off, n), Sectors(off + n, m));
  }

  lemma OneSector(off: nat, n: nat)
    requires 0 < n <= SECTOR - off % SECTOR
    ensures ReadIos(off, n) == [Io(ReadOp, SectorOf(off), true)]
    ensures WriteIos(off, n) == [Io(ReadOp, SectorOf(off), true), Io(WriteOp, SectorOf(off), true)]
  {
    assert Sectors(off, n) == [SectorOf(off)];
  }

  /** What is left of a range, or what is left of the sector, whichever is smaller. */
  function PieceLen(pos: nat, left: nat): (m: nat)
    requires left > 0
    ensures 0 < m <= left && m <= SECTOR - SectorOffset(pos)
  {
    Min(left, SECTOR - SectorOffset(pos))
  }

  /** Position and length of the next piece; the position is a 64-bit sum. */
  method NextPiece(offset: u64, done: nat, left: nat) returns (pos: u64, amount: nat)
    requires left > 0
    ensures offset + done < TWO64 ==> pos == offset + done
    ensures amount == PieceLen(pos, left)
  {
    pos := Wrap64(offset + done);
    amount := PieceLen(pos, left);
  }

  /** A read after `n` bytes: those bytes are in the buffer, and their sectors and no others have
      been asked for. */
  ghost predicate ReadSoFar(disk: seq<byte>, off: nat, size: nat, n: nat, start: nat,
                            out0: seq<byte>, out: seq<byte>, trace0: seq<Io>, trace: seq<Io>)
  {
    && n <= size && (n > 0 ==> off + n <= |disk|)
    && (n < size ==> CutAt(off, n))
    && out == Splice(out0, start, Slice(disk, off, n))
    && trace == trace0 + ReadIos(off, n)
  }

  lemma ReadStarts(disk: seq<byte>, off: nat, size: nat, start: nat,
                   out: seq<byte>, trace: seq<Io>)
    ensures ReadSoFar(disk, off, size, 0, start, out, out, trace, trace)
  {
    SpliceNothing(out, start);
  }

  lemma ReadEnds(disk: seq<byte>, off: nat, size: nat, start: nat,
                 out0: seq<byte>, out: seq<byte>, trace0: seq<Io>, trace: seq<Io>)
    requires ReadSoFar(disk, off, size, size, start, out0, out, trace0, trace)
    ensures ReadDone(disk, off, size, start, out0, out, trace0, trace)
  {
  }

  lemma ReadStep(disk: seq<byte>, off: nat, size: nat, n: nat, start: nat,
                 out0: seq<byte>, out: seq<byte>, out': seq<byte>,
                 trace0: seq<Io>, trace: seq<Io>, trace': seq<Io>)
    requires ReadSoFar(disk, off, size, n, start, out0, out, trace0, trace)
    requires n < size && start + size <= |out0|
    requires var m := PieceLen(off + n, size - n);
             && off + n + m <= |disk|
             && out' == Splice(out, start + n, disk[off + n..off + n + m])
             && trace' == trace + [Io(ReadOp, SectorOf(off + n), true)]
    ensures ReadSoFar(disk, off, size, n + PieceLen(off + n, size - n), start,
                      out0, out', trace0, trace')
  {
    hide ReadIos, Splice;
    var m := PieceLen(off + n, size - n);
    SpliceSlices(out0, start, disk, off, n, m);
    PieceReads(off, n, m);
    if m < size - n {
      PieceCut(off, n, size - n);
    }
  }

  /** The next piece adds the requests for its one sector. */
  lemma PieceReads(off: nat, n: nat, m: nat)
    requires CutAt(off, n) && 0 < m <= SECTOR - SectorOffset(off + n)
    ensures ReadIos(off, n) + [Io(ReadOp, SectorOf(off + n), true)] == ReadIos(off, n + m)
  {
    OneSector(off + n, m);
    ReadIosAppend(off, n, m);
  }

  lemma PieceWrites(off: nat, n: nat, m: nat)
    requires CutAt(off, n) && 0 < m <= SECTOR - SectorOffset(off + n)
    ensures WriteIos(off, n)
              + [Io(ReadOp, SectorOf(off + n), true), Io(WriteOp, SectorOf(off + n), true)]
         == WriteIos(off, n + m)
  {
    OneSector(off + n, m);
    WriteIosAppend(off, n, m);
  }

  /** A piece that leaves something over ends at a sector boundary. */
  lemma PieceCut(off: nat, n: nat, left: nat)
    requires left > 0 && PieceLen(off + n, left) < left
    ensures CutAt(off, n + PieceLen(off + n, left))
  {
  }

  /** A write after `|done|` bytes. */
  ghost predicate WrittenSoFar(disk0: seq<byte>, disk: seq<byte>, off: nat, size: nat,
                               done: seq<byte>, trace0: seq<Io>, trace: seq<Io>)
  {
    var n := |done|;
    && n <= size && (n > 0 ==> off + n <= |disk|)
    && (n < size ==> CutAt(off, n))
    && disk == Splice(disk0, off, done)
    && trace == trace0 + WriteIos(off, n)
  }

  lemma WriteStarts(disk: seq<byte>, off: nat, size: nat, trace: seq<Io>)
    ensures WrittenSoFar(disk, disk, off, size, [], trace, trace)
  {
    SpliceNothing(disk, off);
  }

  lemma WriteEnds(disk0: seq<byte>, disk: seq<byte>, off: nat, done: seq<byte>,
                  trace0: seq<Io>, trace: seq<Io>)
    requires WrittenSoFar(disk0, disk, off, |done|, done, trace0, trace)
    ensures WriteDone(disk0, disk, off, done, trace0, trace)
  {
  }

  lemma WriteStep(disk0: seq<byte>, disk: seq<byte>, disk': seq<byte>, off: nat, size: nat,
                  done: seq<byte>, piece: seq<byte>,
                  trace0: seq<Io>, trace: seq<Io>, trace': seq<Io>)
    requires WrittenSoFar(disk0, disk, off, size, done, trace0, trace)
    requires |done| < size
    requires |piece| == PieceLen(off + |done|, size - |done|)
    requires PieceWritten(disk, disk', off + |done|, piece, trace, trace')
    ensures WrittenSoFar(disk0, disk', off, size, done + piece, trace0, trace')
  {
    hide WriteIos, Splice;
    SpliceAppend(disk0, off, done, piece);
    PieceWrites(off, |done|, |piece|);
    if |piece| < size - |done| {
      PieceCut(off, |done|, size - |done|);
    }
  }

  lemma WriteFails(disk0: seq<byte>, disk: seq<byte>, disk': seq<byte>, off: nat, size: nat,
                   done: seq<byte>, trace0: seq<Io>, trace: seq<Io>, trace': seq<Io>)
    requires WrittenSoFar(disk0, disk, off, size, done, trace0, trace) && |done| < size
    requires PieceFailed(disk, disk', off + |done|, trace, trace')
    ensures WriteShort(disk0, disk', off, done, trace0, trace')
  {
  }

  /** Part of a sector, seen from the flat disk. */
  lemma SectorPart(disk: seq<byte>, pos: nat, n: nat)
    requires InRange(disk, SectorOf(pos)) && SectorOffset(pos) + n <= SECTOR
    ensures pos + n <= |disk|
    ensures SectorAt(disk, SectorOf(pos))[SectorOffset(pos)..SectorOffset(pos) + n] == disk[pos..pos + n]
  {
    assert SectorOf(pos) * SECTOR + SectorOffset(pos) == pos;
    WindowSlice(disk, SectorOf(pos) * SECTOR, SECTOR, SectorOffset(pos), n);
  }

  /** Patching a sector and writing it back splices the patch into the flat disk. */
  lemma SectorPatched(disk: seq<byte>, pos: nat, data: seq<byte>)
    requires InRange(disk, SectorOf(pos)) && SectorOffset(pos) + |data| <= SECTOR
    ensures pos + |data| <= |disk|
    ensures Splice(disk, SectorOf(pos) * SECTOR,
                   Splice(SectorAt(disk, SectorOf(pos)), SectorOffset(pos), data))
         == Splice(disk, pos, data)
  {
    hide Splice;
    assert SectorOf(pos) * SECTOR + SectorOffset(pos) == pos;
    SpliceWindow(disk, SectorOf(pos) * SECTOR, SECTOR, SectorOffset(pos), data);
  }

  /** A record that lies in one sector arrives whole or not at all. */
  lemma RecordRead(disk: seq<byte>, off: nat, n: nat, out: seq<byte>, out': seq<byte>,
                   trace: seq<Io>, trace': seq<Io>)
    requires 0 < |out| <= SECTOR - SectorOffset(off) && n <= |out|
    requires n == |out| ==> ReadDone(disk, off, n, 0, out, out', trace, trace')
    requires n < |out| ==> ReadShort(disk, off, n, 0, out, out', trace, trace')
    ensures trace' == trace + [Io(ReadOp, SectorOf(off), n == |out|)]
    ensures n == |out| ==> off + n <= |disk| && out' == disk[off..off + n]
    ensures n < |out| ==> n == 0 && out' == out
  {
    OneSector(off, |out|);
    if n == |out| {
      SpliceReadBack(out, 0, disk[off..off + n]);
      assert out'[0..n] == out';
    } else {
      assert n == 0;
      SpliceNothing(out, 0);
      assert ReadIos(off, 0) == [];
    }
  }

  lemma RecordWritten(disk: seq<byte>, disk': seq<byte>, off: nat, n: nat, data: seq<byte>,
                      trace: seq<Io>, trace': seq<Io>)
    requires 0 < |data| <= SECTOR - SectorOffset(off) && n <= |data| && |disk| == |disk'|
    requires n == |data| ==> WriteDone(disk, disk', off, data, trace, trace')
    requires n < |data| ==> WriteShort(disk, disk', off, data[..n], trace, trace')
    ensures n == |data| ==> PieceWritten(disk, disk', off, data, trace, trace')
    ensures n < |data| ==> n == 0 && PieceFailed(disk, disk', off, trace, trace')
  {
    OneSector(off, |data|);
    if n < |data| {
      assert n == 0;
      SpliceNothing(disk, off);
      assert WriteIos(off, 0) == [];
    }
  }

  /** A 16-bit index after `n` requests. */
  predicate Counts(idx: u16, n: nat) { idx == n % 0x1_0000 }

  lemma CountsOn(idx: u16, n: nat)
    requires Counts(idx, n)
    ensures Counts(Wrap16(idx + 1), n + 1)
  {
  }

  /** The block driver: the request queue and, across it, the device. */
  class BlkDriver {
    const ring: Vring
    const device: BlockDevice
    /** How many requests the device had served before it was given to this driver. */
    ghost const earlier: nat

    /** Everything a request may touch besides the caller's buffer. */
    ghost function Repr(): set<object> {
      {this, ring, ring.desc, ring.avail, device}
    }

    /** Between requests nothing is outstanding: driver and device agree on every index, which is
        the number of requests so far modulo 2^16, and all avail slots hold the one head that every
        request is rewound to. */
    ghost predicate Valid()
      reads Repr()
    {
      && ring.Valid() && device.Valid()
      && ring.descrNext < ring.num
      && (forall s :: 0 <= s < ring.num ==> ring.avail[s] == ring.descrNext)
      && ring.usedLast == ring.availNext == ring.availIdx == ring.usedIdx == device.cursor
      && |device.trace| >= earlier && Counts(ring.availIdx, |device.trace| - earlier)
    }

    constructor (num: nat, device: BlockDevice)
      requires 4 <= num <= 0x8000 && device.Valid() && device.cursor == 0
      ensures Valid() && this.device == device && fresh(Repr() - {device})
    {
      ring := new Vring(num);
      this.device := device;
      earlier := |device.trace|;
    }

    /** Both sector calls: post one chain of header, data and status, wait for it, rewind. `header`
        is what the device found in the first part. */
    method Transact(op: IoOp, sector: u64, addr: array<byte>)
      returns (status: byte, ghost header: seq<byte>)
      requires Valid() && addr.Length == SECTOR && addr !in Repr()
      modifies Repr(), addr
      ensures Valid() && ring.descrNext == old(ring.descrNext)
      ensures Effect(op, sector, old(device.disk), old(addr[..]), device.disk, addr[..], status)
      ensures device.trace == old(device.trace) + [Io(op, sector, status == 0)]
      ensures !device.faulty && InRange(old(device.disk), sector) ==> status == 0
      ensures |header| == 16 && Field(header, 8, 8) == sector
      ensures Field(header, 0, 4) == if op == ReadOp then 0 else 1
    {
      hide Field, Chain, Effect, InRange, OpCode, Counts, Wrap16, ChainCarries;
      hide Vring.Carries, BlockDevice.Waiting, BlockDevice.Completed;
      CountsOn(ring.availIdx, |device.trace| - earlier);
      var state := new byte[1](_ => 0xff);
      var hdr := new byte[HEADER];
      FillHeader(hdr, op, sector);
      header := hdr[..];
      ghost var req := Request(ring.availNext, op, sector, hdr, addr, state,
                               device.disk, addr[..], device.trace);
      var used := Post(op, hdr, addr, state, req);
      ring.WaitCompletion(device, req);
      ring.UnuseDescr(used);
      status := state[0];
      forall s | 0 <= s < ring.num ensures ring.avail[s] == ring.descrNext {
        assert ring.avail[..][s] == old(ring.avail[..])[s];
      }
      assert Counts(ring.availIdx, |device.trace| - earlier);
    }

    /** Type, an unused priority and the sector number. */
    method FillHeader(hdr: array<byte>, op: IoOp, sector: u64)
      requires hdr.Length == HEADER
      modifies hdr
      ensures Field(hdr[..], 0, 4) == (if op == ReadOp then 0 else 1)
      ensures Field(hdr[..], 8, 8) == sector
    {
      ghost var h0 := hdr[..];
      Store(hdr, 0, ToLe(OpCode(op), 4));
      ghost var h1 := hdr[..];
      Store(hdr, 8, ToLe(sector, 8));
      Pow256Values();
      LeRoundTrip(OpCode(op), 4);
      LeRoundTrip(sector, 8);
      SpliceReadBack(h0, 0, ToLe(OpCode(op), 4));
      SpliceElsewhere(h1, 8, ToLe(sector, 8), 0, 4);
      SpliceReadBack(h1, 8, ToLe(sector, 8));
    }

    /** Puts the three parts on the ring and publishes them. */
    method Post(op: IoOp, hdr: array<byte>, data: array<byte>, state: array<byte>,
                ghost req: Request)
      returns (used: u16)
      requires Valid() && {hdr, data, state} !! Repr()
      requires hdr.Length == HEADER && data.Length == SECTOR && state.Length == 1
      requires hdr != data && hdr != state && data != state
      requires Field(hdr[..], 0, 4) == (if op == ReadOp then 0 else 1)
      requires Field(hdr[..], 8, 8) == req.sector
      requires req == Request(ring.availNext, op, req.sector, hdr, data, state,
                              device.disk, data[..], device.trace)
      modifies ring, ring.desc, ring.avail
      ensures used == old(ring.descrNext)
      ensures ring.Carries(req) && device.Waiting(ring, req)
      ensures ring.avail[..] == old(ring.avail[..]) && ring.availNext == ring.availIdx
      ensures ring.availIdx == Wrap16(old(ring.availNext) + 1)
    {
      hide ChainCarries, Field;
      ghost var table := ring.desc[..];
      ghost var flags: u16 := if op == ReadOp then DESC_WRITABLE else 0;
      var next := ring.UseDescr();
      used := next;
      EntriesCarry(table, next, req);
      next := ring.AddToDescr(hdr, HEADER, 0, next, false);
      next := ring.AddToDescr(data, SECTOR, if op == ReadOp then DESC_WRITABLE else 0, next, false);
      next := ring.AddToDescr(state, 1, DESC_WRITABLE, next, true);
      assert ring.desc[..] == ThreeEntries(table, used, hdr, data, flags, state);
      ring.PostDescr(used);
      assert ring.avail[..] == old(ring.avail[..]);
    }

    method ReadSectorSync(sector: u64, addr: array<byte>) returns (status: byte)
      requires Valid() && addr.Length == SECTOR && addr !in Repr()
      modifies Repr(), addr
      ensures Valid() && device.disk == old(device.disk)
      ensures status == 0 ==>
        InRange(device.disk, sector) && addr[..] == SectorAt(device.disk, sector)
      ensures device.trace == old(device.trace) + [Io(ReadOp, sector, status == 0)]
      ensures !device.faulty && InRange(device.disk, sector) ==> status == 0
    {
      ghost var header;
      status, header := Transact(ReadOp, sector, addr);
    }

    method WriteSectorSync(sector: u64, addr: array<byte>) returns (status: byte)
      requires Valid() && addr.Length == SECTOR && addr !in Repr()
      modifies Repr(), addr
      ensures Valid() && addr[..] == old(addr[..]) && |device.disk| == |old(device.disk)|
      ensures status == 0 ==>
        && InRange(device.disk, sector)
        && device.disk == Splice(old(device.disk), sector * SECTOR, addr[..])
      ensures status != 0 ==>
        SameOutside(device.disk, old(device.disk), sector * SECTOR, sector * SECTOR + SECTOR)
      ensures device.trace == old(device.trace) + [Io(WriteOp, sector, status == 0)]
      ensures !device.faulty && InRange(device.disk, sector) ==> status == 0
    {
      ghost var header;
      status, header := Transact(WriteOp, sector, addr);
    }

    /** One turn of the read loop: the part of the range that lies in one sector. */
    method ReadPiece(output: array<byte>, to: nat, pos: u64, amount: nat) returns (ok: bool)
      requires Valid() && to + amount <= output.Length && output !in Repr()
      requires 0 < amount <= SECTOR - SectorOffset(pos)
      modifies Repr(), output
      ensures Valid() && device.disk == old(device.disk)
      ensures ok ==>
        && pos + amount <= |device.disk|
        && output[..] == Splice(old(output[..]), to, device.disk[pos..pos + amount])
        && device.trace == old(device.trace) + [Io(ReadOp, SectorOf(pos), true)]
      ensures !ok ==>
        && output[..] == old(output[..])
        && device.trace == old(device.trace) + [Io(ReadOp, SectorOf(pos), false)]
      ensures !device.faulty && pos + amount <= |device.disk| ==> ok
    {
      hide Splice, SectorAt, SectorOffset;
      var sector, at := SectorOf(pos), SectorOffset(pos);
      var blk := new byte[SECTOR](_ => 0);
      var result := ReadSectorSync(sector, blk);
      if result != 0 {
        return false;
      }
      SectorPart(device.disk, pos, amount);
      assert blk[at..at + amount] == blk[..][at..at + amount];
      Store(output, to, blk[at..at + amount]);
      return true;
    }

    /** One turn of the read loop: how far it got, or zero when the request failed. */
    method ReadTurn(output: array<byte>, start: nat, offset: u64, size: nat, n: nat,
                    ghost out0: seq<byte>, ghost trace0: seq<Io>)
      returns (amount: nat)
      requires Valid() && n < size && start + size <= output.Length && output !in Repr()
      requires ReadSoFar(device.disk, offset, size, n, start, out0, output[..], trace0, device.trace)
      modifies Repr(), output
      ensures Valid() && device.disk == old(device.disk) && n + amount <= size
      ensures amount != 0 ==>
        ReadSoFar(device.disk, offset, size, n + amount, start, out0, output[..],
                  trace0, device.trace)
      ensures amount == 0 ==>
        ReadShort(device.disk, offset, n, start, out0, output[..], trace0, device.trace)
      ensures !device.faulty && offset + size <= |device.disk| ==> amount != 0
    {
      hide Splice, ReadIos, CutAt, Slice;
      ghost var out, trace := output[..], device.trace;
      var pos, left := NextPiece(offset, n, size - n);
      var ok := ReadPiece(output, start + n, pos, left);
      if !ok {
        return 0;
      }
      ReadStep(device.disk, offset, size, n, start, out0, out, output[..],
               trace0, trace, device.trace);
      return left;
    }

    /** Reads `size` bytes at `offset` into `output` from index `start`. The returned count is
        exact: those bytes and no others arrived, sector by sector, before the first failure. */
    method ReadSync(output: array<byte>, start: nat, offset: u64, size: nat) returns (n: nat)
      requires Valid() && start + size <= output.Length && output !in Repr()
      modifies Repr(), output
      ensures Valid() && device.disk == old(device.disk) && n <= size
      ensures n == size ==>
        ReadDone(device.disk, offset, n, start, old(output[..]), output[..],
                 old(device.trace), device.trace)
      ensures n < size ==>
        ReadShort(device.disk, offset, n, start, old(output[..]), output[..],
                  old(device.trace), device.trace)
      ensures !device.faulty && offset + size <= |device.disk| ==> n == size
    {
      hide ReadSoFar, ReadDone, ReadShort;
      n := 0;
      ReadStarts(device.disk, offset, size, start, output[..], device.trace);
      while n < size
        invariant Valid() && device.disk == old(device.disk) && n <= size
        invariant ReadSoFar(device.disk, offset, size, n, start, old(output[..]), output[..],
                            old(device.trace), device.trace)
      {
        var amount := ReadTurn(output, start, offset, size, n, old(output[..]), old(device.trace));
        if amount == 0 {
          return;
        }
        n := n + amount;
      }
      ReadEnds(device.disk, offset, size, start, old(output[..]), output[..],
               old(device.trace), device.trace);
    }

    /** The part of a write that lies in one sector: read the sector, patch it, write it back. */
    method WritePiece(input: array<byte>, from: nat, pos: u64, amount: nat) returns (ok: bool)
      requires Valid() && from + amount <= input.Length && input !in Repr()
      requires 0 < amount <= SECTOR - SectorOffset(pos)
      modifies Repr()
      ensures Valid() && |device.disk| == |old(device.disk)|
      ensures ok ==>
        PieceWritten(old(device.disk), device.disk, pos, input[from..from + amount],
                     old(device.trace), device.trace)
      ensures !ok ==>
        PieceFailed(old(device.disk), device.disk, pos, old(device.trace), device.trace)
      ensures !device.faulty && pos + amount <= |device.disk| ==> ok
    {
      hide Splice, SectorAt, SectorOffset;
      var blk := new byte[SECTOR](_ => 0);
      var sector, at := SectorOf(pos), SectorOffset(pos);
      var result := ReadSectorSync(sector, blk);
      if result != 0 {
        return false;
      }
      SectorPatched(device.disk, pos, input[from..from + amount]);
      Store(blk, at, input[from..from + amount]);
      result := WriteSectorSync(sector, blk);
      return result == 0;
    }

    /** One turn of the write loop: how far it got, or zero when a request failed. */
    method WriteTurn(input: array<byte>, start: nat, offset: u64, size: nat, n: nat,
                     ghost data: seq<byte>, ghost disk0: seq<byte>, ghost trace0: seq<Io>)
      returns (amount: nat)
      requires Valid() && n < size && start + size <= input.Length && input !in Repr()
      requires |device.disk| == |disk0| && data == input[start..start + size]
      requires WrittenSoFar(disk0, device.disk, offset, size, data[..n], trace0, device.trace)
      modifies Repr()
      ensures Valid() && n + amount <= size && |device.disk| == |disk0|
      ensures amount != 0 ==>
        WrittenSoFar(disk0, device.disk, offset, size, data[..n + amount], trace0, device.trace)
      ensures amount == 0 ==>
        WriteShort(disk0, device.disk, offset, data[..n], trace0, device.trace)
      ensures !device.faulty && offset + size <= |device.disk| ==> amount != 0
    {
      hide Splice, WriteIos, CutAt;
      ghost var disk, trace := device.disk, device.trace;
      var pos, left := NextPiece(offset, n, size - n);
      ghost var piece := data[n..n + left];
      WindowSlice(input[..], start, size, n, left);
      assert input[start + n..start + n + left] == piece;
      var ok := WritePiece(input, start + n, pos, left);
      if !ok {
        WriteFails(disk0, disk, device.disk, offset, size, data[..n], trace0, trace, device.trace);
        return 0;
      }
      WriteStep(disk0, disk, device.disk, offset, size, data[..n], piece,
                trace0, trace, device.trace);
      assert data[..n] + piece == data[..n + left];
      return left;
    }

    /** Writes `size` bytes of `input` from index `start` to `offset`, patching one sector at a
        time. The counted bytes are in place; beyond them only the failing sector may differ. */
    method WriteSync(input: array<byte>, start: nat, offset: u64, size: nat) returns (n: nat)
      requires Valid() && start + size <= input.Length && input !in Repr()
      modifies Repr()
      ensures Valid() && |device.disk| == |old(device.disk)| && n <= size
      ensures n == size ==>
        WriteDone(old(device.disk), device.disk, offset, input[start..start + size],
                  old(device.trace), device.trace)
      ensures n < size ==>
        WriteShort(old(device.disk), device.disk, offset, input[start..start + size][..n],
                   old(device.trace), device.trace)
      ensures !device.faulty && offset + size <= |device.disk| ==> n == size
    {
      hide WrittenSoFar, WriteDone, WriteShort;
      ghost var data := input[start..start + size];
      n := 0;
      WriteStarts(device.disk, offset, size, device.trace);
      while n < size
        invariant Valid() && n <= size && |device.disk| == |old(device.disk)|
        invariant input[start..start + size] == data
        invariant WrittenSoFar(old(device.disk), device.disk, offset, size, data[..n],
                               old(device.trace), device.trace)
      {
        var amount := WriteTurn(input, start, offset, size, n, data,
                                old(device.disk), old(device.trace));
        if amount == 0 {
          return;
        }
        n := n + amount;
      }
      assert n == size;
      assert data[..size] == data;
      WriteEnds(old(device.disk), device.disk, offset, data, old(device.trace), device.trace);
    }
  }
}

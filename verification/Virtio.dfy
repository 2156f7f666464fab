/** The split virtqueue shared by the driver and the block device.

    A descriptor holds the address of a buffer, modelled as a reference to the buffer, so the
    device really writes into the arrays that the driver put on the ring. Fences are not
    modelled: every statement of the driver is one step and the device runs between steps. */
module Virtio {
  import opened Words
  import opened Bytes
  import opened Arithmetic

  const SECTOR: nat := 512
  const HEADER: nat := 16

  const DESC_NEXT: u16 := 1
  const DESC_WRITABLE: u16 := 2

  datatype Desc = Desc(addr: array?<byte>, len: nat, flags: u16, next: nat)

  datatype IoOp = ReadOp | WriteOp

  /** One finished sector request, as the device saw it. */
  datatype Io = Io(op: IoOp, sector: nat, ok: bool)

  /** The request type in the header: `VIRTIO_BLK_READ_OP` or `VIRTIO_BLK_WRITE_OP`. */
  function OpCode(op: IoOp): nat {
    match op
    case ReadOp => 0
    case WriteOp => 1
  }

  /** Bit 0 of the flags is NEXT and bit 1 is WRITABLE. */
  predicate HasNext(d: Desc) { d.flags % 2 == 1 }
  predicate Writable(d: Desc) { d.flags / 2 % 2 == 1 }

  function SetNext(flags: u16): u16 { flags - flags % 2 + DESC_NEXT }
  function ClearNext(flags: u16): u16 { flags - flags % 2 }

  /** The descriptor after `d`. The driver divides by one less than the queue size. */
  function NextDescr(num: nat, d: nat): (r: nat)
    requires num >= 2
    ensures r < num - 1
  {
    (d + 1) % (num - 1)
  }

  function Entry(buf: array?<byte>, size: nat, flags: u16, next: nat, endsChain: bool): Desc {
    if endsChain then Desc(buf, size, ClearNext(flags), 0)
    else Desc(buf, size, SetNext(flags), next)
  }

  /** The descriptors a device visits from `head`, following the NEXT flags. */
  function Chain(table: seq<Desc>, head: nat, fuel: nat): seq<nat>
    decreases fuel
  {
    if fuel == 0 || head >= |table| then []
    else if HasNext(table[head]) then [head] + Chain(table, table[head].next, fuel - 1)
    else [head]
  }

  /** The table after three entries are added from `head`: a request's header, data and status. */
  function ThreeEntries(table: seq<Desc>, head: nat, hdr: array?<byte>, data: array?<byte>,
                        dataFlags: u16, status: array?<byte>): seq<Desc>
    requires 4 <= |table| && head < |table|
  {
    var num := |table|;
    var second := NextDescr(num, head);
    var third := NextDescr(num, second);
    table[head := Entry(hdr, HEADER, 0, second, false)]
         [second := Entry(data, SECTOR, dataFlags, third, false)]
         [third := Entry(status, 1, DESC_WRITABLE, 0, true)]
  }

  /** From every starting head, also one that wraps, the three entries form one chain of three
      distinct descriptors in the order header, data, status; the chain ends there; and no
      device-readable part follows a device-writable one. */
  lemma ThreeEntriesChain(table: seq<Desc>, head: nat, hdr: array?<byte>, data: array?<byte>,
                          dataFlags: u16, status: array?<byte>)
    requires 4 <= |table| && head < |table|
    requires dataFlags == 0 || dataFlags == DESC_WRITABLE
    ensures var t := ThreeEntries(table, head, hdr, data, dataFlags, status);
            var second := NextDescr(|table|, head);
            var third := NextDescr(|table|, second);
            && Chain(t, head, |table|) == [head, second, third]
            && head != second && second != third && head != third
            && t[head].addr == hdr && t[second].addr == data && t[third].addr == status
            && t[head].len == HEADER && t[second].len == SECTOR && t[third].len == 1
            && t[head].flags == 1 && t[second].flags == dataFlags + 1 && t[third].flags == 2
            && !Writable(t[head]) && Writable(t[third])
            && (Writable(t[second]) <==> dataFlags == 2)
            && (forall d :: 0 <= d < |t| && d !in {head, second, third} ==> t[d] == table[d])
  {
    hide NextDescr, Chain, Writable, HasNext;
    var num := |table|;
    var t := ThreeEntries(table, head, hdr, data, dataFlags, status);
    var second := NextDescr(num, head);
    var third := NextDescr(num, second);
    NextDistinct(num, head);
    EntryFlags(hdr, HEADER, 0, second, false);
    EntryFlags(data, SECTOR, dataFlags, third, false);
    EntryFlags(status, 1, DESC_WRITABLE, 0, true);
    ChainOfThree(t, head, second, third);
  }

  /** The flags of an entry: it links exactly when it does not end the chain. */
  lemma EntryFlags(buf: array?<byte>, size: nat, flags: u16, next: nat, endsChain: bool)
    requires flags == 0 || flags == DESC_WRITABLE
    ensures HasNext(Entry(buf, size, flags, next, endsChain)) <==> !endsChain
    ensures Writable(Entry(buf, size, flags, next, endsChain)) <==> flags == DESC_WRITABLE
    ensures Entry(buf, size, flags, next, endsChain).flags == if endsChain then flags else flags + 1
  {
  }

  lemma ChainOfThree(t: seq<Desc>, first: nat, second: nat, third: nat)
    requires |t| >= 3 && first < |t| && second < |t| && third < |t|
    requires HasNext(t[first]) && t[first].next == second
    requires HasNext(t[second]) && t[second].next == third
    requires !HasNext(t[third])
    ensures Chain(t, first, |t|) == [first, second, third]
  {
    hide HasNext;
    assert Chain(t, third, |t| - 2) == [third];
    assert Chain(t, second, |t| - 1) == [second] + Chain(t, third, |t| - 2);
    assert Chain(t, first, |t|) == [first] + Chain(t, second, |t| - 1);
  }

  /** In a queue of at least four entries, three successive descriptors differ for every head. */
  lemma NextDistinct(num: nat, head: nat)
    requires num >= 4 && head < num
    ensures var second := NextDescr(num, head);
            var third := NextDescr(num, second);
            head != second && second != third && head != third
  {
    NextValue(num, head);
    NextValue(num, NextDescr(num, head));
  }

  lemma NextValue(num: nat, d: nat)
    requires num >= 4 && d < num
    ensures NextDescr(num, d) == if d + 1 < num - 1 then d + 1 else d + 1 - (num - 1)
  {
    if d + 1 < num - 1 {
      Residue(num - 1, 0, d + 1);
    } else {
      Residue(num - 1, 1, d + 1 - (num - 1));
    }
  }

  /** The avail slot the driver fills and the slot a conforming device reads. */
  function DriverSlot(num: nat, idx: nat): nat
    requires num >= 2
  {
    idx % (num - 1)
  }

  function DeviceSlot(num: nat, idx: nat): nat
    requires num >= 2
  {
    idx % num
  }

  /** After how many indices the two slots run through the same pairs again. */
  function Period(num: nat): nat
    requires num >= 2
  {
    num * (num - 1)
  }

  /** The driver divides by `num - 1` and the device by `num`, so the two slots coincide only in
      the first `num - 1` of every `num * (num - 1)` indices. */
  lemma SlotsAgree(num: nat, idx: nat)
    requires num >= 2
    ensures DriverSlot(num, idx) == DeviceSlot(num, idx) <==> idx % (num * (num - 1)) < num - 1
  {
    hide DriverSlot, DeviceSlot;
    PeriodPositive(num);
    SlotsAgreeIn(num, idx);
  }

  lemma SlotsAgreeIn(num: nat, idx: nat)
    requires num >= 2 && Period(num) > 0
    ensures DriverSlot(num, idx) == DeviceSlot(num, idx) <==> idx % Period(num) < num - 1
  {
    hide DriverSlot, DeviceSlot, Period;
    var k, l, b, r := SplitIndex(num, idx);
    DeviceSlotIs(num, idx, k, r);
    DriverSlotIs(num, idx, l, b + r);
    SlotsAgreeBelow(num, b, r);
  }

  lemma PeriodPositive(num: nat)
    requires num >= 2
    ensures Period(num) > 0
  {
  }

  lemma DeviceSlotIs(num: nat, idx: nat, k: nat, r: nat)
    requires num >= 2 && r < num && idx == num * k + r
    ensures DeviceSlot(num, idx) == r
  {
    Residue(num, k, r);
  }

  lemma DriverSlotIs(num: nat, idx: nat, k: nat, x: nat)
    requires num >= 2 && idx == (num - 1) * k + x
    ensures DriverSlot(num, idx) == DriverSlot(num, x)
  {
    ResidueShift(num - 1, k, x);
  }

  /** An index by its row `b` in the period and its place `r` in the row: it is `r` from a multiple
      of `num`, and `b + r` from a multiple of `num - 1`. */
  lemma SplitIndex(num: nat, idx: nat) returns (k: nat, l: nat, b: nat, r: nat)
    requires num >= 2 && Period(num) > 0
    ensures b < num - 1 && r < num
    ensures idx == num * k + r && idx == (num - 1) * l + (b + r)
    ensures idx % Period(num) == num * b + r
  {
    var q, x;
    q, x := QuotientOf(Period(num), idx);
    b, r := QuotientOf(num, x);
    if b >= num - 1 { Monotone(num, num - 1, b); }
    k, l := (num - 1) * q + b, num * q + b;
    assert Period(num) * q == num * (num - 1) * q;
    Regroup(num, num - 1, q, b, r, idx);
  }

  lemma QuotientOf(m: nat, x: nat) returns (q: nat, r: nat)
    requires m > 0
    ensures x == m * q + r && r < m && r == x % m
  {
    q, r := x / m, x % m;
    Divide(m, x, q, r);
  }

  lemma Regroup(num: nat, m: nat, q: nat, b: nat, r: nat, idx: nat)
    requires num == m + 1 && idx == num * m * q + num * b + r
    ensures idx == num * (m * q + b) + r
    ensures idx == m * (num * q + b) + (b + r)
  {
    assert num * (m * q + b) == num * (m * q) + num * b;
    assert m * (num * q + b) == m * (num * q) + m * b;
    assert num * m * q == num * (m * q) == m * (num * q);
    assert num * b == m * b + b;
  }

  lemma SlotsAgreeBelow(num: nat, b: nat, r: nat)
    requires num >= 2 && b < num - 1 && r < num
    ensures DriverSlot(num, b + r) == r <==> num * b + r < num - 1
  {
    if b == 0 {
      assert num * b == 0;
      if r < num - 1 { Residue(num - 1, 0, r); }
    } else {
      Monotone(num, 1, b);
      if r < num - 1 { SmallResidue(num - 1, b, r); }
    }
  }

  /** Adding a nonzero amount below the modulus changes the residue. */
  lemma SmallResidue(m: nat, b: nat, r: nat)
    requires 0 < b < m && r < m
    ensures (b + r) % m != r
  {
    if b + r >= m {
      Residue(m, 1, b + r - m);
    } else {
      Residue(m, 0, b + r);
    }
  }

  /** The request sector lies on the disk. */
  predicate InRange(disk: seq<byte>, sector: nat) {
    sector * SECTOR + SECTOR <= |disk|
  }

  function SectorAt(disk: seq<byte>, sector: nat): seq<byte>
    requires InRange(disk, sector)
  {
    disk[sector * SECTOR..sector * SECTOR + SECTOR]
  }

  /** What one sector request may do: a successful one reads or writes exactly its sector; a
      failed read leaves the disk alone and a failed write may spoil its own sector only. */
  ghost predicate Effect(op: IoOp, sector: nat, disk: seq<byte>, data: seq<byte>,
                         disk': seq<byte>, data': seq<byte>, status: byte)
  {
    && |disk'| == |disk|
    && (status == 0 ==> InRange(disk, sector))
    && (op == ReadOp ==>
          disk' == disk && (status == 0 ==> data' == SectorAt(disk, sector)))
    && (op == WriteOp ==>
          && data' == data
          && (status == 0 ==> disk' == Splice(disk, sector * SECTOR, data))
          && (status != 0 ==> SameOutside(disk', disk, sector * SECTOR, sector * SECTOR + SECTOR)))
  }

  /** A request posted at avail index `at`, with the state it must be served in. */
  datatype Request = Request(at: u16, op: IoOp, sector: nat,
                             hdr: array<byte>, data: array<byte>, status: array<byte>,
                             disk0: seq<byte>, data0: seq<byte>, trace0: seq<Io>)

  /** The chain from `head` is that of the request: header, data and status, with flag 1 on every part
      that another one follows and flag 2 on those that the device writes. */
  ghost predicate ChainCarries(t: seq<Desc>, head: nat, req: Request) {
    var chain := Chain(t, head, |t|);
    && |chain| == 3
    && (forall k :: 0 <= k < 3 ==> chain[k] < |t|)
    && t[chain[0]].addr == req.hdr && t[chain[0]].len == 16 && t[chain[0]].flags == 1
    && t[chain[1]].addr == req.data && t[chain[1]].len == 512
    && t[chain[1]].flags == (if req.op == ReadOp then 3 else 1)
    && t[chain[2]].addr == req.status && t[chain[2]].len == 1 && t[chain[2]].flags == 2
    && !Writable(t[chain[0]]) && Writable(t[chain[2]])
    && (Writable(t[chain[1]]) <==> req.op == ReadOp)
  }

  /** The three entries of a request make its chain. */
  lemma EntriesCarry(table: seq<Desc>, head: nat, req: Request)
    requires 4 <= |table| && head < |table|
    ensures var flags := if req.op == ReadOp then DESC_WRITABLE else 0;
      ChainCarries(ThreeEntries(table, head, req.hdr, req.data, flags, req.status), head, req)
  {
    hide Chain, Writable;
    var flags: u16 := if req.op == ReadOp then DESC_WRITABLE else 0;
    ThreeEntriesChain(table, head, req.hdr, req.data, flags, req.status);
  }

  /** The queue memory and the driver's bookkeeping of it. */
  class Vring {
    const num: nat
    const desc: array<Desc>
    const avail: array<u16>
    var availIdx: u16
    var usedIdx: u16

    var usedLast: u16
    var availNext: u16
    var descrNext: u16

    ghost predicate Valid() {
      4 <= num <= 0x8000 && desc.Length == num && avail.Length == num
    }

    /** The queue memory that the device reads. */
    ghost function Memory(): set<object> { {desc, avail} }

    /** A freshly allocated ring: zeroed memory and zeroed bookkeeping. */
    constructor (num: nat)
      requires 4 <= num <= 0x8000
      ensures Valid() && this.num == num && fresh(desc) && fresh(avail)
      ensures forall s :: 0 <= s < num ==> avail[s] == 0
      ensures availIdx == 0 && usedIdx == 0 && usedLast == 0 && availNext == 0 && descrNext == 0
    {
      this.num := num;
      desc := new Desc[num](_ => Desc(null, 0, 0, 0));
      avail := new u16[num](_ => 0);
      availIdx, usedIdx := 0, 0;
      usedLast, availNext, descrNext := 0, 0, 0;
    }

    method UseDescr() returns (d: u16)
      ensures d == descrNext
    {
      d := descrNext;
    }

    method UnuseDescr(goback: u16)
      modifies this`descrNext
      ensures descrNext == goback
    {
      descrNext := goback;
    }

    /** Fills entry `where` and links it to the successor of the bookkeeping position, which need
        not be the successor of `where`. */
    method AddToDescr(buf: array<byte>, size: nat, flags: u16, where: nat, endsChain: bool)
      returns (next: u16)
      requires Valid() && where < num
      modifies this`descrNext, desc
      ensures next == NextDescr(num, old(descrNext)) && descrNext == next
      ensures desc[..] == old(desc[..])[where := Entry(buf, size, flags, next, endsChain)]
    {
      next := NextDescr(num, descrNext);
      desc[where] := Desc(buf, size, flags, if endsChain then 0 else next);
      desc[where] := desc[where].(flags := if endsChain then ClearNext(desc[where].flags)
                                           else SetNext(desc[where].flags));
      descrNext := next;
    }

    /** Publishes a chain: the avail slot is filled before the index moves. */
    method PostDescr(head: u16)
      requires Valid()
      modifies this`availNext, this`availIdx, avail
      ensures avail[..] == old(avail[..])[DriverSlot(num, old(availNext)) := head]
      ensures availNext == (old(availNext) + 1) % 0x1_0000 && availIdx == availNext
    {
      avail[DriverSlot(num, availNext)] := head;
      availNext := Wrap16(availNext + 1);
      availIdx := availNext;
    }

    /** The slot the device reads next holds the head of exactly this request: header, data and
        status, in buffers of their own. */
    ghost predicate Carries(req: Request)
      requires Valid()
      reads desc, avail, req.hdr
    {
      && ChainCarries(desc[..], avail[DeviceSlot(num, req.at)], req)
      && req.hdr.Length == HEADER && req.data.Length == SECTOR && req.status.Length == 1
      && req.hdr != req.data && req.hdr != req.status && req.data != req.status
      && {req.hdr, req.data, req.status} !! Memory()
      && Field(req.hdr[..], 0, 4) == (if req.op == ReadOp then 0 else 1)
      && Field(req.hdr[..], 8, 8) == req.sector
    }

    /** Spins until the used index leaves the remembered value. The device serves the one
        outstanding request after an arbitrary finite number of polls. */
    method WaitCompletion(device: BlockDevice, ghost req: Request)
      requires Valid() && Carries(req) && device.Valid()
      requires device.Waiting(this, req) || device.Completed(this, req)
      modifies device, this`usedIdx, this`usedLast, req.data, req.status
      ensures device.Valid() && |device.disk| == |req.disk0|
      ensures req.data.Length == SECTOR && req.status.Length == 1
      ensures device.Finished(req)
      ensures usedLast == usedIdx == device.cursor == availIdx
    {
      hide Effect, InRange, Field, Chain, Writable;
      var id := usedIdx;
      var patience: nat := *;
      while id == usedLast
        invariant device.Valid()
        invariant device.Waiting(this, req) || device.Completed(this, req)
        invariant id == usedIdx
        decreases patience + if device.cursor == availIdx then 0 else 1
      {
        device.MayRun(this, req, patience == 0);
        patience := if patience == 0 then 0 else patience - 1;
        id := usedIdx;
      }
      usedLast := id;
    }
  }

  /** A conforming block device: it takes the next published chain, follows it, serves the
      request it finds there and then moves the used index. It may fail a request that lies on
      the disk only if it is faulty. */
  class BlockDevice {
    var disk: seq<byte>
    var cursor: u16
    const capacity: nat
    const faulty: bool
    ghost var trace: seq<Io>

    ghost predicate Valid()
      reads this
    {
      |disk| == SECTOR * capacity && |disk| < 0x8000_0000_0000_0000
    }

    constructor (disk: seq<byte>, faulty: bool)
      requires |disk| % SECTOR == 0 && |disk| < 0x8000_0000_0000_0000
      ensures Valid() && this.disk == disk && this.faulty == faulty && cursor == 0 && trace == []
    {
      this.disk, this.faulty, cursor, trace := disk, faulty, 0, [];
      capacity := |disk| / SECTOR;
    }

    /** The one posted request has not been touched yet. */
    ghost predicate Waiting(ring: Vring, req: Request)
      reads this, ring, req.data
    {
      && cursor == ring.usedIdx == ring.usedLast == req.at
      && ring.availIdx == Wrap16(req.at + 1)
      && disk == req.disk0 && req.data[..] == req.data0 && trace == req.trace0
    }

    /** The request has been served, exactly once. */
    ghost predicate Finished(req: Request)
      requires req.data.Length == SECTOR && req.status.Length == 1
      reads this, req.data, req.status
    {
      && |disk| == |req.disk0|
      && Effect(req.op, req.sector, req.disk0, req.data0, disk, req.data[..], req.status[0])
      && trace == req.trace0 + [Io(req.op, req.sector, req.status[0] == 0)]
      && (!faulty && InRange(req.disk0, req.sector) ==> req.status[0] == 0)
    }

    ghost predicate Completed(ring: Vring, req: Request)
      reads this, ring, req.data, req.status
    {
      && req.data.Length == SECTOR && req.status.Length == 1
      && ring.usedLast == req.at
      && cursor == ring.usedIdx == ring.availIdx == Wrap16(req.at + 1)
      && Finished(req)
    }

    /** At any poll the device may or may not have got to the request; `due` ends its delay. */
    method MayRun(ring: Vring, ghost req: Request, due: bool)
      requires ring.Valid() && Valid() && ring.Carries(req)
      requires Waiting(ring, req) || Completed(ring, req)
      modifies this, ring`usedIdx, req.data, req.status
      ensures Valid() && (Waiting(ring, req) || Completed(ring, req))
      ensures due ==> Completed(ring, req)
    {
      var acts := due;
      if !acts {
        acts := *;
      }
      if acts && cursor != ring.availIdx {
        Step(ring, req);
      }
    }

    /** Takes the chain at the cursor and serves it: type 0 is a read and type 1 a write. */
    method Step(ring: Vring, ghost req: Request)
      requires ring.Valid() && Valid() && ring.Carries(req)
      requires Waiting(ring, req)
      modifies this, ring`usedIdx, req.data, req.status
      ensures Valid() && Completed(ring, req)
    {
      var head := ring.avail[DeviceSlot(ring.num, cursor)];
      var chain := Chain(ring.desc[..], head, ring.num);
      var hdr: array<byte> := ring.desc[chain[0]].addr;
      var data: array<byte> := ring.desc[chain[1]].addr;
      var status: array<byte> := ring.desc[chain[2]].addr;
      var code := Field(hdr[..], 0, 4);
      var sector := Field(hdr[..], 8, 8);

      var failing := !InRange(disk, sector);
      if faulty && !failing {
        failing := *;
      }
      if code == 0 {
        ServeRead(sector, failing, data);
      } else if code == 1 {
        ServeWrite(sector, failing, data);
      } else {
        failing := true;
      }
      var errorCode: int := *;
      status[0] := if !failing then 0 else if 0 < errorCode < 256 then errorCode else 1;
      trace := trace + [Io(if code == 0 then ReadOp else WriteOp, sector, !failing)];
      cursor := Wrap16(cursor + 1);
      ring.usedIdx := Wrap16(ring.usedIdx + 1);
    }

    /** A failed read leaves anything in the buffer. */
    method ServeRead(sector: nat, failing: bool, data: array<byte>)
      requires failing || InRange(disk, sector)
      requires data.Length == SECTOR
      modifies data
      ensures !failing ==> data[..] == SectorAt(disk, sector)
    {
      if failing {
        var junk: seq<byte> := *;
        if |junk| == SECTOR {
          Store(data, 0, junk);
        }
      } else {
        Store(data, 0, SectorAt(disk, sector));
      }
    }

    /** A failed write leaves anything in the sector it was aimed at. */
    method ServeWrite(sector: nat, failing: bool, data: array<byte>)
      requires failing || InRange(disk, sector)
      requires data.Length == SECTOR
      modifies this`disk
      ensures !failing ==> disk == Splice(old(disk), sector * SECTOR, data[..])
      ensures failing ==>
        SameOutside(disk, old(disk), sector * SECTOR, sector * SECTOR + SECTOR)
      ensures |disk| == |old(disk)|
    {
      if failing {
        var junk: seq<byte> := *;
        if |junk| == SECTOR {
          disk := Splice(disk, sector * SECTOR, junk);
        }
      } else {
        disk := Splice(disk, sector * SECTOR, data[..]);
      }
    }
  }
}

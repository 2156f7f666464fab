/** Memory that is handed out once and never returned, and the ring areas laid out in it. */
module Memory {
  import opened Words
  import opened Arithmetic

  const PAGE: nat := 4096

  /** `x & ~m`, bit by bit. */
  function AndNot(x: nat, m: nat): nat {
    if x == 0 then 0
    else 2 * AndNot(x / 2, m / 2) + if x % 2 == 1 && m % 2 == 0 then 1 else 0
  }

  function Pow2(k: nat): (p: nat)
    ensures p > 0
  {
    if k == 0 then 1 else 2 * Pow2(k - 1)
  }

  /** `ALIGN_UP(x, align)`: add and mask. */
  function AlignUp(x: nat, align: nat): nat
    requires align > 0
  {
    AndNot(x + align - 1, align - 1)
  }

  /** Masking takes away at most the mask. */
  lemma {:induction false} AndNotBounds(x: nat, m: nat)
    ensures AndNot(x, m) <= x <= AndNot(x, m) + m
  {
    if x != 0 {
      AndNotBounds(x / 2, m / 2);
    }
  }

  lemma {:induction false} AndNotZero(x: nat)
    ensures AndNot(x, 0) == x
  {
    if x != 0 {
      AndNotZero(x / 2);
    }
  }

  /** Masking with one less than a power of two rounds down to its multiple. */
  lemma {:induction false} AndNotPow2(x: nat, k: nat)
    ensures AndNot(x, Pow2(k) - 1) == x - x % Pow2(k)
    decreases k
  {
    hide AndNot;
    if k == 0 {
      AndNotZero(x);
    } else {
      var p := Pow2(k - 1);
      AndNotPow2(x / 2, k - 1);
      AndNotOdd(x, p);
      Doubled(x, p);
    }
  }

  /** An odd mask clears the lowest bit. */
  lemma AndNotOdd(x: nat, p: nat)
    requires p > 0
    ensures AndNot(x, 2 * p - 1) == 2 * AndNot(x / 2, p - 1)
  {
    assert (2 * p - 1) % 2 == 1 && (2 * p - 1) / 2 == p - 1;
  }

  lemma Doubled(x: nat, p: nat)
    requires p > 0
    ensures x % (2 * p) == 2 * (x / 2 % p) + x % 2
  {
    var q, r := x / 2 / p, x / 2 % p;
    Divide(p, x / 2, q, r);
    assert x == 2 * p * q + (2 * r + x % 2) by { assert 2 * (p * q) == 2 * p * q; }
    Residue(2 * p, q, 2 * r + x % 2);
  }

  /** For a power of two, `ALIGN_UP` is the least multiple that is not below. */
  lemma AlignUpPow2(x: nat, k: nat)
    ensures var a := Pow2(k);
      && AlignUp(x, a) % a == 0
      && x <= AlignUp(x, a) < x + a
  {
    hide Pow2, AndNot;
    var a := Pow2(k);
    var y := x + a - 1;
    AndNotPow2(y, k);
    Divide(a, y, y / a, y % a);
    Residue(a, y / a, 0);
  }

  /** Aligning past an aligned base is aligning the rest. */
  lemma AlignUpShift(base: nat, x: nat, k: nat)
    requires base % Pow2(k) == 0
    ensures AlignUp(base + x, Pow2(k)) == base + AlignUp(x, Pow2(k))
  {
    var a := Pow2(k);
    hide Pow2, AndNot;
    var y := x + a - 1;
    AndNotPow2(base + y, k);
    AndNotPow2(y, k);
    Divide(a, base, base / a, 0);
    ResidueShift(a, base / a, y);
    assert base + x + a - 1 == base + y;
  }

  /** The lowest power of two whose bit is not set in `m`. */
  function LowestGap(m: nat): (g: nat)
    ensures g > 0
  {
    if m % 2 == 0 then 1 else 2 * LowestGap(m / 2)
  }

  lemma {:induction false} AndNotSelf(m: nat)
    ensures AndNot(m, m) == 0
  {
    if m != 0 {
      AndNotSelf(m / 2);
    }
  }

  /** Adding `m` to its lowest gap sets just that bit, so masking `m` away leaves the gap. */
  lemma {:induction false} GapStays(m: nat)
    ensures AndNot(m + LowestGap(m), m) == LowestGap(m)
  {
    if m % 2 == 0 {
      AndNotSelf(m / 2);
      assert (m + 1) / 2 == m / 2 && (m + 1) % 2 == 1;
    } else {
      GapStays(m / 2);
      assert (m + LowestGap(m)) / 2 == m / 2 + LowestGap(m / 2);
    }
  }

  /** Every number but those one below a power of two has a gap below its highest bit. */
  lemma {:induction false} GapBelow(m: nat)
    ensures LowestGap(m) <= m || exists k: nat :: m + 1 == Pow2(k)
  {
    if m == 0 {
      assert m + 1 == Pow2(0);
    } else if m % 2 == 1 {
      GapBelow(m / 2);
      if LowestGap(m / 2) > m / 2 {
        var k: nat :| m / 2 + 1 == Pow2(k);
        assert m + 1 == Pow2(k + 1);
      }
    }
  }

  lemma GapLeft(a: nat)
    requires a > 0 && forall k: nat :: a != Pow2(k)
    ensures var x := LowestGap(a - 1); x < a && AlignUp(x, a) == x
  {
    hide AndNot, Pow2, LowestGap;
    GapStays(a - 1);
    GapBelow(a - 1);
  }

  /** An alignment is honoured at every position exactly when it is a power of two. For any other
      the lowest gap of the mask is a position that is left as it is, though it is not aligned. */
  lemma AlignUpExact(a: nat)
    requires a > 0
    ensures (forall x: nat :: AlignUp(x, a) % a == 0) <==> exists k: nat :: a == Pow2(k)
  {
    hide AlignUp, Pow2;
    if k: nat :| a == Pow2(k) {
      forall x: nat ensures AlignUp(x, a) % a == 0 {
        AlignUpPow2(x, k);
      }
      assert exists n: nat :: a == Pow2(n);
    } else {
      GapLeft(a);
      var x := LowestGap(a - 1);
      Residue(a, 0, x);
      assert AlignUp(x, a) % a != 0;
    }
  }

  lemma PageIsPow2()
    ensures Pow2(12) == PAGE
  {
    assert Pow2(4) == 16;
    assert Pow2(8) == 256;
  }

  lemma PageAligned(x: nat)
    ensures AlignUp(x, PAGE) % PAGE == 0 && x <= AlignUp(x, PAGE) < x + PAGE
  {
    hide AlignUp, Pow2;
    PageIsPow2();
    AlignUpPow2(x, 12);
  }

  lemma PageShift(base: nat, x: nat)
    requires base % PAGE == 0
    ensures AlignUp(base + x, PAGE) == base + AlignUp(x, PAGE)
  {
    hide AlignUp, Pow2;
    PageIsPow2();
    AlignUpShift(base, x, 12);
  }

  datatype Block = Block(at: nat, size: nat)

  ghost predicate BlocksApart(bs: seq<Block>) {
    forall i, j :: 0 <= i < j < |bs| ==> bs[i].at + bs[i].size <= bs[j].at
  }

  /** The frontier of the never-freed storage, with the history of what was handed out. */
  class ForeverStorage {
    const start: nat
    const stop: nat
    var frontier: nat
    ghost var blocks: seq<Block>

    ghost predicate Valid()
      reads this
    {
      && start <= frontier
      && BlocksApart(blocks)
      && (forall i :: 0 <= i < |blocks| ==>
            start <= blocks[i].at && blocks[i].at + blocks[i].size <= frontier
            && blocks[i].at + blocks[i].size <= stop)
    }

    constructor (start: nat, stop: nat)
      ensures Valid() && this.start == start && this.stop == stop && frontier == start && blocks == []
    {
      this.start, this.stop, frontier, blocks := start, stop, start, [];
    }

    /** A fresh block, apart from every block handed out before, or nothing when the storage is
        used up. */
    method ForeverAllocAligned(size: nat, align: nat) returns (r: Option<nat>)
      requires Valid() && align > 0
      modifies this
      ensures Valid()
      ensures r.None? <==> AlignUp(old(frontier), align) + size > stop
      ensures r.None? ==> frontier == old(frontier) && blocks == old(blocks)
      ensures r.Some? ==>
        && r.value == AlignUp(old(frontier), align) && old(frontier) <= r.value
        && frontier == r.value + size && blocks == old(blocks) + [Block(r.value, size)]
    {
      AndNotBounds(frontier + align - 1, align - 1);
      var at := AlignUp(frontier, align);
      if at + size > stop {
        return None;
      }
      frontier := at + size;
      blocks := blocks + [Block(at, size)];
      return Some(at);
    }
  }

  function DescrSize(qsz: nat): nat { 16 * qsz }
  function AvailSize(qsz: nat): nat { 6 + 2 * qsz }
  function UsedSize(qsz: nat): nat { 6 + 8 * qsz }

  function RingSize(qsz: nat): nat {
    AlignUp(DescrSize(qsz) + AvailSize(qsz), PAGE) + AlignUp(UsedSize(qsz), PAGE)
  }

  /** Where the three areas of a ring lie. */
  datatype Layout = Layout(desc: nat, avail: nat, used: nat, size: nat)

  /** The legacy layout of section 2.6.2 of VIRTIO 1.1, in bytes: one page-aligned block that holds
      `qsz` descriptors of 16 bytes, right behind them the avail ring of 6 + 2 * qsz bytes, and on
      the next page boundary the used ring of 6 + 8 * qsz bytes. Each part ends before the next
      begins, and the block ends on the first page boundary behind the last. */
  ghost predicate LegacyLayout(l: Layout, qsz: nat) {
    && l.desc % 4096 == 0
    && (forall i :: 0 <= i < qsz ==> DescriptorAt(l.desc, i) + 16 <= l.avail)
    && l.avail == l.desc + 16 * qsz && l.avail % 2 == 0
    && l.avail + (6 + 2 * qsz) <= l.used < l.avail + (6 + 2 * qsz) + 4096 && l.used % 4096 == 0
    && l.used + (6 + 8 * qsz) <= l.desc + l.size < l.used + (6 + 8 * qsz) + 4096
    && l.size == LegacySize(qsz)
  }

  /** Where descriptor `i` lies. */
  function DescriptorAt(desc: nat, i: nat): nat { desc + 16 * i }

  /** The bytes of the block: the pages under descriptors and avail ring, and those under the used
      ring. */
  function LegacySize(qsz: nat): nat {
    4096 * ((16 * qsz + (6 + 2 * qsz) + 4095) / 4096) + 4096 * ((6 + 8 * qsz + 4095) / 4096)
  }

  /** The size that the code computes is that number. */
  lemma RingSizeExact(qsz: nat)
    ensures RingSize(qsz) == LegacySize(qsz)
  {
    hide AlignUp;
    PageAlignedExact(DescrSize(qsz) + AvailSize(qsz));
    PageAlignedExact(UsedSize(qsz));
  }

  /** Aligning to a page rounds up to a multiple of 4096. */
  lemma PageAlignedExact(x: nat)
    ensures AlignUp(x, PAGE) == 4096 * ((x + 4095) / 4096)
  {
    hide AlignUp;
    PageAligned(x);
  }

  lemma AreasFit(desc: nat, qsz: nat)
    requires desc % PAGE == 0
    ensures LegacyLayout(Layout(desc, desc + DescrSize(qsz),
                                AlignUp(desc + DescrSize(qsz) + AvailSize(qsz), PAGE),
                                RingSize(qsz)), qsz)
  {
    hide AlignUp, LegacySize;
    PageShift(desc, DescrSize(qsz) + AvailSize(qsz));
    PageAligned(desc + DescrSize(qsz) + AvailSize(qsz));
    PageAligned(DescrSize(qsz) + AvailSize(qsz));
    PageAligned(UsedSize(qsz));
    Evened(desc, qsz);
    RingSizeExact(qsz);
  }

  /** The block queue has 256 entries. */
  lemma LayoutOf256(l: Layout)
    requires LegacyLayout(l, 256)
    ensures l.avail == l.desc + 4096 && l.used == l.desc + 8192 && l.size == 12288
  {
  }

  lemma Evened(desc: nat, qsz: nat)
    requires desc % PAGE == 0
    ensures (desc + DescrSize(qsz)) % 2 == 0
  {
    Divide(PAGE, desc, desc / PAGE, 0);
    Residue(2, 2048 * (desc / PAGE) + 8 * qsz, 0);
  }

  /** Reserves and divides the memory of a ring of `qsz` entries. */
  method VringInit(storage: ForeverStorage, qsz: nat) returns (r: Option<Layout>)
    requires storage.Valid() && qsz <= 0x8000
    modifies storage
    ensures storage.Valid()
    ensures r.None? <==>
      4096 * ((old(storage.frontier) + 4095) / 4096) + LegacySize(qsz) > storage.stop
    ensures r.None? ==> storage.frontier == old(storage.frontier) && storage.blocks == old(storage.blocks)
    ensures r.Some? ==>
      && LegacyLayout(r.value, qsz)
      && storage.blocks == old(storage.blocks) + [Block(r.value.desc, r.value.size)]
  {
    hide AlignUp, LegacySize, RingSize;
    RingSizeExact(qsz);
    PageAlignedExact(storage.frontier);
    var size := RingSize(qsz);
    var space := storage.ForeverAllocAligned(size, PAGE);
    if space.None? {
      return None;
    }
    var desc := space.value;
    PageAligned(old(storage.frontier));
    AreasFit(desc, qsz);
    var avail := desc + DescrSize(qsz);
    var used := AlignUp(avail + AvailSize(qsz), PAGE);
    return Some(Layout(desc, avail, used, size));
  }
}

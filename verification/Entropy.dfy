/** Random bytes from the entropy device, eight at a time. */
module Entropy {
  import opened Words
  import opened Bytes
  import opened Arithmetic
  import opened Virtio

  const CHUNK: nat := 8

  /** The descriptor that chunk `k` is posted at. The bookkeeping is rewound after every chunk, but
      the local position is not, so the head moves on at every other chunk. */
  function HeadOf(num: nat, d0: nat, k: nat): nat
    requires num >= 2
  {
    if k == 0 then d0 else (d0 + (k + 1) / 2) % (num - 1)
  }

  function Heads(num: nat, d0: nat, n: nat): (r: seq<nat>)
    requires num >= 2
    ensures |r| == n
  {
    seq<nat>(n, k requires 0 <= k < n => HeadOf(num, d0, k))
  }

  /** Where the bookkeeping stands when chunk `k` begins. */
  function Rewound(num: nat, d0: nat, k: nat): nat
    requires num >= 2
  {
    if k == 0 then d0 else HeadOf(num, d0, k - 1)
  }

  /** The successor of the rewound position is the head of the next chunk. */
  lemma NextHead(num: nat, d0: nat, k: nat)
    requires num >= 2
    ensures NextDescr(num, Rewound(num, d0, k)) == HeadOf(num, d0, k + 1)
    ensures Rewound(num, d0, k + 1) == HeadOf(num, d0, k)
  {
    if k >= 2 {
      var m := num - 1;
      var x := d0 + k / 2;
      Divide(m, x, x / m, x % m);
      ResidueShift(m, x / m, x % m + 1);
      assert x + 1 == m * (x / m) + (x % m + 1);
    }
  }

  lemma HeadsAppend(num: nat, d0: nat, n: nat)
    requires num >= 2
    ensures Heads(num, d0, n) + [HeadOf(num, d0, n)] == Heads(num, d0, n + 1)
  {
  }

  /** The number of chunks of a request. */
  function Chunks(length: nat): nat { (length + CHUNK - 1) / CHUNK }

  lemma ChunksAre(length: nat, n: nat)
    requires length <= CHUNK * n < length + CHUNK
    ensures n == Chunks(length)
  {
  }

  lemma FirstHead(num: nat, d0: nat, out: seq<byte>)
    requires num >= 2
    ensures HeadOf(num, d0, 0) == d0 == Rewound(num, d0, 0)
    ensures Delivered(out, [], 0)
  {
  }

  /** The answers of the device, end to end, cut at the requested length. */
  ghost predicate Delivered(out: seq<byte>, answers: seq<seq<byte>>, length: nat) {
    && length <= |out| && length <= CHUNK * |answers|
    && (forall k :: 0 <= k < |answers| ==> |answers[k]| == CHUNK)
    && (forall i :: 0 <= i < length ==> out[i] == answers[i / CHUNK][i % CHUNK])
  }

  /** The heads posted and the answers received. */
  datatype Posted = Posted(heads: seq<nat>, answers: seq<seq<byte>>)

  /** The loop after some chunks, from `d0` and the output `before`: the next head, the bytes filled
      and the bookkeeping position follow from how many chunks there were. */
  ghost predicate SoFar(h: Posted, next: nat, filled: nat, num: nat, d0: nat, descrNext: nat,
                        out: seq<byte>, before: seq<byte>, length: nat)
    requires num >= 2
  {
    var n := |h.answers|;
    && filled == CHUNK * n < length + CHUNK && length <= |out| == |before|
    && next == HeadOf(num, d0, n) && descrNext == Rewound(num, d0, n)
    && h.heads == Heads(num, d0, n)
    && Delivered(out, h.answers, Min(filled, length))
    && out[length..] == before[length..]
  }

  lemma SoFarStep(h: Posted, next: nat, filled: nat, num: nat, d0: nat, descrNext: nat,
                  out: seq<byte>, out': seq<byte>, before: seq<byte>, length: nat,
                  answer: seq<byte>, next': nat)
    requires num >= 2 && SoFar(h, next, filled, num, d0, descrNext, out, before, length)
    requires filled < length && |answer| == CHUNK && next' == NextDescr(num, descrNext)
    requires out' == Splice(out, filled, answer[..Min(CHUNK, length - filled)])
    ensures SoFar(Posted(h.heads + [next], h.answers + [answer]), next', filled + CHUNK,
                  num, d0, next, out', before, length)
  {
    hide HeadOf, Heads, Rewound, Delivered, NextDescr, Splice;
    var n := |h.answers|;
    NextHead(num, d0, n);
    HeadsAppend(num, d0, n);
    DeliverMore(out, out', h.answers, answer, filled, Min(CHUNK, length - filled), length, before);
  }

  /** The entropy queue; its device answers every chunk that is posted. */
  class EntropyDriver {
    const ring: Vring
    const initialized: bool

    ghost function Repr(): set<object> { {this, ring, ring.desc, ring.avail} }

    ghost predicate Valid()
      reads Repr()
    {
      ring.Valid() && ring.descrNext < ring.num
    }

    constructor (num: nat, initialized: bool)
      requires 4 <= num <= 0x8000
      ensures Valid() && this.initialized == initialized && ring.descrNext == 0
    {
      ring := new Vring(num);
      this.initialized := initialized;
    }

    /** The device fills the buffer and moves the used index; the driver remembers the index. */
    method AwaitAnswer(buf: array<byte>) returns (ghost answer: seq<byte>)
      requires Valid() && buf.Length == CHUNK && buf !in Repr()
      modifies ring`usedIdx, ring`usedLast, buf
      ensures Valid() && |answer| == CHUNK && buf[..] == answer
      ensures ring.usedLast == ring.usedIdx
    {
      for i := 0 to CHUNK {
        var b: int := *;
        buf[i] := if 0 <= b < 256 then b else 0;
      }
      ring.usedIdx := Wrap16(ring.usedIdx + 1);
      ring.usedLast := ring.usedIdx;
      answer := buf[..];
    }

    /** One chunk: a single writable descriptor is filled at `head` and that same head is posted. */
    method PostChunk(buf: array<byte>, head: u16) returns (next: u16)
      requires Valid() && buf !in Repr() && head < ring.num
      modifies ring, ring.desc, ring.avail
      ensures Valid() && next == NextDescr(ring.num, old(ring.descrNext)) && ring.descrNext == head
      ensures ring.desc[head] == Desc(buf, 8, 2, 0)
      ensures ring.avail[DriverSlot(ring.num, old(ring.availNext))] == head
      ensures Chain(ring.desc[..], head, ring.num) == [head]
      ensures ring.availIdx == ring.availNext == Wrap16(old(ring.availNext) + 1)
    {
      next := ring.AddToDescr(buf, CHUNK, DESC_WRITABLE, head, true);
      ring.PostDescr(head);
      ring.UnuseDescr(head);
    }

    /** One turn of the loop: a chunk is posted and its answer copied behind the bytes so far. */
    method FillChunk(head: nat, filled: nat, buf: array<byte>, output: array<byte>, length: nat,
                     ghost h: Posted, ghost d0: nat, ghost before: seq<byte>)
      returns (next: nat, ghost h': Posted)
      requires Valid() && buf.Length == CHUNK && {buf, output} !! Repr() && buf != output
      requires SoFar(h, head, filled, ring.num, d0, ring.descrNext, output[..], before, length)
      requires head < ring.num && filled < length <= output.Length
      modifies ring, ring.desc, ring.avail, buf, output
      ensures Valid() && next < ring.num && |h'.answers| == |h.answers| + 1
      ensures ring.availIdx == ring.availNext == Wrap16(old(ring.availNext) + 1)
      ensures SoFar(h', next, filled + CHUNK, ring.num, d0, ring.descrNext, output[..], before, length)
    {
      hide SoFar, NextDescr, Splice, DriverSlot, Chain;
      ghost var out, descrNext := output[..], ring.descrNext;
      next := PostChunk(buf, head);
      ghost var answer := AwaitAnswer(buf);
      var amount := Min(CHUNK, length - filled);
      Store(output, filled, buf[..amount]);
      SoFarStep(h, head, filled, ring.num, d0, descrNext, out, output[..], before, length, answer, next);
      h' := Posted(h.heads + [head], h.answers + [answer]);
    }

    /** Fills `length` bytes of the output in order and writes nothing past them; chunk `k` was
        posted at `HeadOf(k)`. */
    method GetRandomness(output: array<byte>, length: nat)
      returns (r: int, ghost heads: seq<nat>, ghost answers: seq<seq<byte>>)
      requires Valid() && length <= output.Length && output !in Repr()
      modifies ring, ring.desc, ring.avail, output
      ensures Valid()
      ensures r == if initialized then length else -1
      ensures !initialized ==> output[..] == old(output[..]) && heads == []
      ensures initialized ==>
        && |answers| == (length + 7) / 8
        && heads == Heads(ring.num, old(ring.descrNext), |answers|)
        && (forall k :: 0 <= k < |answers| ==> |answers[k]| == 8)
        && (forall i :: 0 <= i < length ==> output[i] == answers[i / 8][i % 8])
        && output[length..] == old(output[length..])
      ensures initialized ==>
        && ring.availNext == (old(ring.availNext) + |answers|) % 0x1_0000
        && (length > 0 ==> ring.availIdx == ring.availNext)
    {
      hide SoFar, HeadOf, Heads, Rewound, Wrap16, Delivered, Chunks;
      r, heads, answers := -1, [], [];
      if !initialized {
        return;
      }
      var buf := new byte[CHUNK](_ => 0);
      ghost var d0, before := ring.descrNext, output[..];
      ghost var h := Posted([], []);
      var next: nat := ring.UseDescr();
      var filled := 0;
      SoFarStarts(ring.num, d0, before, length);
      while filled < length
        invariant Valid() && next < ring.num
        invariant SoFar(h, next, filled, ring.num, d0, ring.descrNext, output[..], before, length)
        invariant ring.availNext == (old(ring.availNext) + |h.answers|) % 0x1_0000
        invariant filled > 0 ==> ring.availIdx == ring.availNext
      {
        PostsOn(old(ring.availNext), |h.answers|);
        next, h := FillChunk(next, filled, buf, output, length, h, d0, before);
        filled := filled + CHUNK;
      }
      SoFarEnds(h, next, filled, ring.num, d0, ring.descrNext, output[..], before, length);
      r, heads, answers := length, h.heads, h.answers;
    }
  }

  lemma PostsOn(a: nat, n: nat)
    ensures Wrap16((a + n) % 0x1_0000 + 1) == (a + n + 1) % 0x1_0000
  {
  }

  lemma SoFarStarts(num: nat, d0: nat, out: seq<byte>, length: nat)
    requires num >= 2 && length <= |out|
    ensures SoFar(Posted([], []), d0, 0, num, d0, d0, out, out, length)
  {
    FirstHead(num, d0, out);
  }

  lemma SoFarEnds(h: Posted, next: nat, filled: nat, num: nat, d0: nat, descrNext: nat,
                  out: seq<byte>, before: seq<byte>, length: nat)
    requires num >= 2 && SoFar(h, next, filled, num, d0, descrNext, out, before, length)
    requires filled >= length
    ensures |h.answers| == (length + 7) / 8 && h.heads == Heads(num, d0, |h.answers|)
    ensures length <= |out| == |before|
    ensures forall k :: 0 <= k < |h.answers| ==> |h.answers[k]| == 8
    ensures forall i :: 0 <= i < length ==> out[i] == h.answers[i / 8][i % 8]
    ensures out[length..] == before[length..]
  {
    hide HeadOf, Heads, Rewound;
    ChunksAre(length, |h.answers|);
  }

  lemma DeliverMore(out: seq<byte>, out': seq<byte>, answers: seq<seq<byte>>, answer: seq<byte>,
                    filled: nat, amount: nat, length: nat, before: seq<byte>)
    requires Delivered(out, answers, filled) && filled == CHUNK * |answers| && |answer| == CHUNK
    requires amount == Min(CHUNK, length - filled) && filled < length <= |out| == |before|
    requires out' == Splice(out, filled, answer[..amount])
    requires out[length..] == before[length..]
    ensures Delivered(out', answers + [answer], filled + amount)
    ensures out'[length..] == before[length..]
  {
    hide Splice;
    var answers' := answers + [answer];
    forall i | 0 <= i < filled + amount ensures out'[i] == answers'[i / CHUNK][i % CHUNK] {
      SpliceAt(out, filled, answer[..amount], i);
      if i < filled {
        assert i / CHUNK < |answers|;
      } else {
        assert i / CHUNK == |answers| && i % CHUNK == i - filled;
      }
    }
    forall i | length <= i < |out| ensures out'[i] == before[i] {
      SpliceAt(out, filled, answer[..amount], i);
      assert out[length..][i - length] == before[length..][i - length];
    }
  }
}

/** Cached weights, chunked operations and the size of the page array. */
module BitmapWeight {
  import opened Words
  import opened BitmapLayout
  import opened BitmapStore
  import opened BitmapOps
  import opened BitmapScan
  import opened Arithmetic

  /** Weight of peer `q` in a bitmap of `bits` bits per peer. */
  function Weight(pages: seq<Page>, peers: nat, q: nat, bits: nat): nat {
    CountRange(pages, peers, q, 0, bits)
  }

  /** The returned total is the change of the peer's weight, and no other peer's weight changes. */
  lemma AppliedWeight(op: Op, p0: seq<Page>, p1: seq<Page>, peers: nat, k: nat, s: nat, e: int, end0: nat,
                      buffer: seq<Word>, bits: nat, q: nat)
    requires Applied(op, p0, p1, peers, k, s, e, buffer) && e < bits
    requires op.Writes()
    ensures var r := Result(op, p0, p1, peers, k, s, e, end0);
      Weight(p1, peers, q, bits) - Weight(p0, peers, q, bits) == if q != k then 0 else if op.Clear? then -r else r
  {
    if q != k || s > e {
      CountRangeAgree(p0, p1, peers, q, 0, bits);
    } else {
      CountRangeAgree(p0, p1, peers, q, 0, s);
      CountRangeAgree(p0, p1, peers, q, e + 1, bits);
      CountRangeSplit(p0, peers, q, 0, s, bits);
      CountRangeSplit(p1, peers, q, 0, s, bits);
      CountRangeSplit(p0, peers, q, s, e + 1, bits);
      CountRangeSplit(p1, peers, q, s, e + 1, bits);
    }
  }

  /** Two adjacent chunks make one operation. */
  lemma AppliedTwice(op: Op, p0: seq<Page>, p1: seq<Page>, p2: seq<Page>, peers: nat, k: nat, s: nat, m: nat, e: int)
    requires op.Set? || op.Clear?
    requires s <= m && Applied(op, p0, p1, peers, k, s, m - 1, []) && Applied(op, p1, p2, peers, k, m, e, [])
    requires e >= m - 1
    ensures Applied(op, p0, p2, peers, k, s, e, [])
  {
    hide BitAt;
    forall q: nat, b: nat
      ensures BitAt(p2, peers, q, b)
           == if q == k && s <= b <= e then BitOp(op, BitAt(p0, peers, k, b), ArgBit([], s, b))
              else BitAt(p0, peers, q, b)
    {
    }
  }

  /** `BM_SECT_TO_BIT(ALIGN(capacity, 8))`: one bit per started 4 KiB block. */
  function BitsFor(capacity: nat): nat {
    (capacity + 7) / 8
  }

  function FirstSector(b: nat): nat {
    8 * b
  }

  /** Every sector of a device of that capacity has a bit, and every bit has a sector. */
  ghost predicate OneBitPerBlock(bits: nat, capacity: nat) {
    forall b: nat :: b < bits <==> FirstSector(b) < capacity
  }

  lemma BitsForIs(capacity: nat)
    ensures OneBitPerBlock(BitsFor(capacity), capacity)
  {
  }

  lemma NothingNeeded(peers: nat)
    ensures BitsFor(0) == 0 && WordsFor(0, peers) == 0 && PagesFor(0) == 0
  {
  }

  /** 32-bit words for all peers, each peer rounded up to 64 bits. */
  function WordsFor(bits: nat, peers: nat): nat {
    (bits + 63) / 64 * 64 * peers / 32
  }

  function PagesFor(words: nat): nat {
    (words * 4 + 4095) / 4096
  }

  /** `bsr_md_on_disk_bits` for a bitmap area of `area` pages, each 512 words of 64 bits. */
  function OnDiskBits(area: nat, peers: nat): nat
    requires peers > 0
  {
    area * 512 / peers * 64
  }

  /** There is room for the bits exactly if they need no more pages than there are on disk. */
  lemma RoomOnDisk(bits: nat, peers: nat, area: nat)
    requires peers > 0
    ensures bits <= OnDiskBits(area, peers) <==> PagesFor(WordsFor(bits, peers)) <= area
  {
    var n, m := (bits + 63) / 64, area * 512 / peers;
    DivMod(area * 512, peers);
    assert n * 64 * peers == 32 * (2 * (n * peers));
    assert WordsFor(bits, peers) == 2 * (n * peers);
    assert bits <= m * 64 <==> n <= m;
    if n <= m {
      MulMono(n, m, peers);
    } else {
      MulMono(m + 1, n, peers);
      Distribute(m, peers);
    }
  }

  /** The allocated pages hold every bit of every peer. */
  lemma PagesHold(pages: seq<Page>, bits: nat, peers: nat)
    requires bits > 0 && peers > 0 && |pages| == PagesFor(WordsFor(bits, peers))
    ensures Holds(pages, peers, peers - 1, bits - 1)
  {
    var n := (bits + 63) / 64;
    assert n * 64 * peers == 32 * (2 * n * peers);
    assert WordsFor(bits, peers) == 2 * n * peers;
    assert (bits - 1) / 32 + 1 <= 2 * n;
    WordIndexMonotone(peers, peers - 1, bits - 1, 64 * n - 1);
    assert (64 * n - 1) / 32 == 2 * n - 1;
    assert (2 * n - 1) * peers + peers == 2 * n * peers;
  }

  lemma AppliedNothing(op: Op, pages: seq<Page>, peers: nat, k: nat, s: nat)
    ensures Applied(op, pages, pages, peers, k, s, s - 1, [])
  {
  }

  lemma AppliedNothingBelow(op: Op, p0: seq<Page>, p1: seq<Page>, peers: nat, k: nat, s: nat, e: int, e': int)
    requires Applied(op, p0, p1, peers, k, s, e, []) && s > e && s > e'
    ensures Applied(op, p0, p1, peers, k, s, e', [])
  {
  }

  lemma NoBits(pages: seq<Page>, peers: nat)
    ensures BitsFor(0) == 0 && forall q :: Weight(pages, peers, q, 0) == 0
  {
  }

  /** A peer's bits and weights after its new bits have been set or cleared. */
  lemma GrownPeer(op: Op, p0: seq<Page>, p1: seq<Page>, peers: nat, k: nat, obits: nat, bits: nat)
    requires (op.Set? || op.Clear?) && obits < bits
    requires Applied(op, p0, p1, peers, k, obits, bits - 1, [])
    ensures forall q: nat, b: nat :: BitAt(p1, peers, q, b)
              == if q == k && obits <= b < bits then op.Set? else BitAt(p0, peers, q, b)
    ensures forall q: nat, n: nat :: q != k || n <= obits ==> Weight(p1, peers, q, n) == Weight(p0, peers, q, n)
    ensures Weight(p1, peers, k, bits) == Weight(p0, peers, k, obits) + if op.Set? then bits - obits else 0
  {
    hide BitAt;
    forall q: nat, n: nat | q != k || n <= obits ensures Weight(p1, peers, q, n) == Weight(p0, peers, q, n) {
      CountRangeAgree(p0, p1, peers, q, 0, n);
    }
    CountRangeSplit(p1, peers, k, 0, obits, bits);
    CountRangeConst(p1, peers, k, obits, bits, op.Set?);
  }

  /** Keeping a prefix of the pages, or appending zero pages, keeps every bit the new size holds. */
  lemma Reallocated(p0: seq<Page>, p1: seq<Page>, peers: nat, obits: nat, bits: nat, capacity: nat)
    requires peers > 0 && capacity > 0 && bits == BitsFor(capacity)
    requires obits > 0 ==> Holds(p0, peers, peers - 1, obits - 1)
    requires |p1| == PagesFor(WordsFor(bits, peers))
    requires forall i :: 0 <= i < |p0| && i < |p1| ==> p1[i] == p0[i]
    ensures bits > 0 && bits <= capacity && Holds(p1, peers, peers - 1, bits - 1)
    ensures forall q, b :: 0 <= q < peers && 0 <= b < bits && b < obits ==>
              BitAt(p1, peers, q, b) == BitAt(p0, peers, q, b)
    ensures bits > obits ==> forall q :: 0 <= q < peers ==> Weight(p1, peers, q, obits) == Weight(p0, peers, q, obits)
  {
    PagesHold(p1, bits, peers);
    hide WordIndex, PagesFor, WordsFor;
    forall q, b | 0 <= q < peers && 0 <= b < bits && b < obits
      ensures BitAt(p1, peers, q, b) == BitAt(p0, peers, q, b)
    {
      PeerHolds(p1, peers, q, b, bits - 1);
      PeerHolds(p0, peers, q, b, obits - 1);
    }
    if bits > obits {
      forall q | 0 <= q < peers ensures Weight(p1, peers, q, obits) == Weight(p0, peers, q, obits) {
        CountRangeAgree(p0, p1, peers, q, 0, obits);
      }
    }
  }
}

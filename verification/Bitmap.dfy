/** The out-of-sync bitmap of a device: all peers' bits, their cached weights and the page write-out flags. */
module Bitmap {
  import opened Arithmetic
  import opened Words
  import opened BitmapLayout
  import opened BitmapStore
  import opened BitmapOps
  import opened BitmapScan
  import opened PageFlags
  import BitmapWeight

  const AL_UPDATES_PER_TRANSACTION := 64
  /** Bits of the largest capacity a 64-bit number of sectors can give. */
  const MAX_BITS := 0x2000_0000_0000_0000

  /** Number of pages from the first peer's word of bit `start` to the last peer's word of bit `end`. */
  function HintPages(peers: nat, start: nat, end: int): nat
    requires peers > 0
  {
    if end < 0 || PageOf(peers, peers - 1, end) < PageOf(peers, 0, start) then 0
    else PageOf(peers, peers - 1, end) - PageOf(peers, 0, start) + 1
  }

  /** `bsr_bm_resize` results. */
  datatype ResizeResult = Resized | NoSpace | NoMemory

  class BsrBitmap {
    const peers: nat
    var pages: seq<Page>
    var needWriteout: set<nat>
    var lazyWriteout: set<nat>
    var bmSet: seq<int>
    var bits: nat
    var words: nat
    var devCapacity: nat
    /** `al_bitmap_hints[..n_bitmap_hints]`, and the pages flagged BM_PAGE_HINT_WRITEOUT. */
    var hints: seq<nat>
    var hinted: set<nat>
    /** The bitmap area of the metadata, page by page. */
    var disk: seq<Page>

    ghost predicate Shape()
      reads this
    {
      && 1 <= peers <= MAX_PEERS
      && |bmSet| == peers && bits <= MAX_BITS && BitmapWeight.OneBitPerBlock(bits, devCapacity)
      && (bits > 0 ==> Holds(pages, peers, peers - 1, bits - 1))
      && Within(needWriteout, |pages|) && Within(lazyWriteout, |pages|) && Within(hinted, |pages|)
    }

    /** Every cached weight is the number of set bits of that peer. */
    ghost predicate Valid()
      reads this
    {
      && Shape()
      && forall q :: 0 <= q < peers ==> bmSet[q] == BitmapWeight.Weight(pages, peers, q, bits)
    }

    /** `bsr_bm_alloc`: no bits yet, whatever the metadata area holds. */
    constructor (peers: nat, disk: seq<Page>)
      requires 1 <= peers <= MAX_PEERS
      ensures Valid() && this.peers == peers && bits == 0 && devCapacity == 0 && pages == [] && this.disk == disk
      ensures Written() && HintsOk() && hinted == {}
    {
      this.peers, this.disk := peers, disk;
      pages, needWriteout, lazyWriteout := [], {}, {};
      bmSet, bits, words, devCapacity := seq(peers, _ => 0), 0, 0, 0;
      hints, hinted := [], {};
    }

    /** The bit loops at the head and tail of a range: test-and-set, test-and-clear or test, bit by bit. */
    method BitLoop(op: Op, page: nat, bitInPage: nat, n: nat) returns (c: nat)
      requires op.Clear? || op.Set? || op.Count?
      requires page < |pages| && bitInPage < PAGE_BITS && bitInPage % 32 + n <= 32
      modifies this`pages
      ensures c == Weight(Counted(op, old(pages)[page][bitInPage / 32], bitInPage % 32, n, ZERO))
      ensures pages == PutWord(old(pages), page, bitInPage / 32,
                               OpWord(op, old(pages)[page][bitInPage / 32], bitInPage % 32, n, ZERO))
    {
      c := 0;
      var w, lo := bitInPage / 32, bitInPage % 32;
      ghost var word := pages[page][w];
      assert OpWord(op, word, lo, 0, ZERO) == word;
      PutSame(pages, page, w);
      for i := 0 to n
        invariant pages == PutWord(old(pages), page, w, OpWord(op, word, lo, i, ZERO))
        invariant c == Weight(Counted(op, word, lo, i, ZERO))
      {
        var bit := pages[page][w][lo + i];
        if (op.Clear? && bit) || (op.Set? && !bit) || (op.Count? && bit) {
          c := c + 1;
        }
        if !op.Count? {
          pages := PutWord(pages, page, w, pages[page][w][lo + i := op.Set?]);
        }
        OpWordGrows(op, word, lo, i, ZERO);
        PutTwice(old(pages), page, w, OpWord(op, word, lo, i, ZERO), OpWord(op, word, lo, i + 1, ZERO));
        assert op.Count? ==> OpWord(op, word, lo, i + 1, ZERO) == OpWord(op, word, lo, i, ZERO);
        CountedGrows(op, word, lo, i, ZERO);
      }
    }

    /** The whole-word case of each operation. */
    method WholeWord(op: Op, page: nat, bitInPage: nat, arg: Words.Word) returns (c: nat, got: Words.Word)
      requires op.Clear? || op.Set? || op.Count? || op.Merge? || op.Extract?
      requires page < |pages| && bitInPage < PAGE_BITS && bitInPage % 32 == 0
      modifies this`pages
      ensures c == Weight(Counted(op, old(pages)[page][bitInPage / 32], 0, 32, arg))
      ensures pages
              == PutWord(old(pages), page, bitInPage / 32, OpWord(op, old(pages)[page][bitInPage / 32], 0, 32, arg))
      ensures op.Extract? ==> got == old(pages)[page][bitInPage / 32]
    {
      var w := bitInPage / 32;
      var p := pages[page][w];
      got := ZERO;
      ghost var counted := Counted(op, p, 0, 32, arg);
      PutSame(pages, page, w);
      if op.Clear? {
        c := Weight(p);
        pages := PutWord(pages, page, w, ZERO);
        assert counted == p && OpWord(op, p, 0, 32, arg) == ZERO;
      } else if op.Set? {
        c := Weight(Not(p));
        pages := PutWord(pages, page, w, ONES);
        assert counted == Not(p) && OpWord(op, p, 0, 32, arg) == ONES;
      } else if op.Count? {
        c := Weight(p);
        assert counted == p && OpWord(op, p, 0, 32, arg) == p;
      } else if op.Merge? {
        c := Weight(And(Not(p), arg));
        pages := PutWord(pages, page, w, Or(p, arg));
        assert counted == And(Not(p), arg) && OpWord(op, p, 0, 32, arg) == Or(p, arg);
      } else {
        c := 0;
        got := p;
        assert OpWord(op, p, 0, 32, arg) == p;
        WeightZero(counted);
      }
    }

    /** The last, partial word of a merge or extract: the operand is masked to `n` bits. */
    method TailWord(op: Op, page: nat, bitInPage: nat, n: nat, arg: Words.Word) returns (c: nat, got: Words.Word)
      requires op.Merge? || op.Extract?
      requires page < |pages| && bitInPage < PAGE_BITS && bitInPage % 32 == 0 && 1 <= n < 32
      modifies this`pages
      ensures c == Weight(Counted(op, old(pages)[page][bitInPage / 32], 0, n, arg))
      ensures pages
              == PutWord(old(pages), page, bitInPage / 32, OpWord(op, old(pages)[page][bitInPage / 32], 0, n, arg))
      ensures op.Extract? ==> got[..n] == old(pages)[page][bitInPage / 32][..n] && forall i :: n <= i < 32 ==> !got[i]
    {
      var w := bitInPage / 32;
      var p := pages[page][w];
      got := ZERO;
      ghost var counted := Counted(op, p, 0, n, arg);
      PutSame(pages, page, w);
      if op.Merge? {
        var b := And(arg, LowMask(n));
        c := Weight(And(Not(p), b));
        pages := PutWord(pages, page, w, Or(p, b));
        assert OpWord(op, p, 0, n, arg) == Or(p, b);
        WeightPadded(counted, And(Not(p), b));
      } else {
        c := 0;
        got := And(p, LowMask(n));
        assert OpWord(op, p, 0, n, arg) == p;
        WeightZero(counted);
      }
    }
  
    /** Where a scan stands, and that what it has done so far is right. */
    ghost predicate ScanOk(op: Op, k: nat, end: nat, buffer: seq<Words.Word>, base: nat, p0: seq<Page>, dirty: set<nat>,
                           sc: Scan)
      reads this
    {
      && 1 <= peers <= MAX_PEERS && k < peers
      && Progress(op, Acc(pages, Mark(op, dirty, sc.page, sc.count), sc.total + sc.count),
                  peers, k, sc.start, end, buffer, base, p0)
      && (sc.start <= end ==>
            if sc.bitInPage < PAGE_BITS then Addresses(peers, k, sc.start, sc.page, sc.bitInPage)
            else Addresses(peers, k, sc.start, sc.page + 1, sc.bitInPage - PAGE_BITS))
      && (op.Extract? ==>
            && OutWords(p0, peers, k, base, end, sc.out)
            && if sc.start <= end then base + 32 * |sc.out| == sc.start else base + 32 * |sc.out| > end)
      && (!op.Writes() ==> pages == p0)
    }

    /** What one step of the scan may rely on: `n` bits that share a word. */
    ghost predicate StepOk(op: Op, k: nat, n: nat, end: nat, buffer: seq<Words.Word>, base: nat, p0: seq<Page>,
                           dirty: set<nat>, sc: Scan)
      reads this
    {
      && ScanOk(op, k, end, buffer, base, p0, dirty, sc) && !op.Test?
      && !sc.hit && sc.bitInPage < PAGE_BITS && Fits(sc.start, n, end)
      && (op.Merge? || op.Extract? ==> Aligned(base) && Aligned(sc.start))
      && (op.Merge? ==> end < base + 32 * |buffer|)
    }

    /** One step of a find operation. */
    method SeekWord(op: Op, k: nat, n: nat, end: nat, buffer: seq<Words.Word>, base: nat, sc: Scan,
                    ghost p0: seq<Page>, ghost dirty: set<nat>) returns (sc': Scan)
      requires StepOk(op, k, n, end, buffer, base, p0, dirty, sc) && op.IsFind()
      ensures if sc'.hit
              then sc' == sc.(hit := true, at := FindFrom(p0, peers, k, base, end, op.Seeks())) && sc'.at <= end
              else ScanOk(op, k, end, buffer, base, p0, dirty, sc') && sc'.start == sc.start + n && sc'.page == sc.page
    {
      hide Run, FindFrom, NextInPage, WordIndex, BitAt, OutWords;
      var start, page, bitInPage := sc.start, sc.page, sc.bitInPage;
      ProgressInBounds(op, Acc(p0, {}, 0), peers, k, start, end, buffer, base, p0, page, bitInPage);
      AddressesNext(peers, k, start, page, bitInPage);
      FindProgress(op, p0, peers, k, start, n, end, buffer, base, page, bitInPage);
      var pos := NextInPage(pages[page], bitInPage + n, bitInPage, op.Seeks());
      if pos < bitInPage + n {
        return sc.(hit := true, at := start + pos - bitInPage);
      }
      return sc.(start := start + n, bitInPage := bitInPage / 32 * 32 + 32 * peers);
    }

    /** One step of any other operation, through the bit loop, the whole-word case or the masked tail. */
    method DoWord(op: Op, k: nat, n: nat, end: nat, buffer: seq<Words.Word>, base: nat, sc: Scan,
                  ghost p0: seq<Page>, ghost dirty: set<nat>) returns (sc': Scan)
      requires StepOk(op, k, n, end, buffer, base, p0, dirty, sc) && !op.IsFind()
      modifies this`pages
      ensures ScanOk(op, k, end, buffer, base, p0, dirty, sc')
      ensures !sc'.hit && sc'.start == sc.start + n && sc'.page == sc.page
    {
      hide Progress, Addresses, Mark, PutWord, OpWord, Counted, Weight, WordIndex, ArgWord, ArgOk, BitAt, OutWords;
      var start, page, bitInPage := sc.start, sc.page, sc.bitInPage;
      ghost var marked := Mark(op, dirty, page, sc.count);
      ProgressInBounds(op, Acc(pages, marked, sc.total + sc.count), peers, k, start, end, buffer, base, p0, page,
                       bitInPage);
      AddressesNext(peers, k, start, page, bitInPage);
      var arg := if op.Merge? then buffer[(start - base) / 32] else ZERO;
      ArgWordAligned(op, arg, buffer, base, start, n);
      SegmentProgress(op, pages, marked, sc.total + sc.count, peers, k, start, n, end, buffer, base, p0, page,
                      bitInPage, arg);
      if !op.Writes() {
        ReadOnly(op, pages, page, bitInPage / 32, start % 32, n, arg);
      }
      var c, got: Words.Word := 0, ZERO;
      if n == 32 {
        c, got := WholeWord(op, page, bitInPage, arg);
      } else if op.Merge? || op.Extract? {
        c, got := TailWord(op, page, bitInPage, n, arg);
      } else {
        c := BitLoop(op, page, bitInPage, n);
      }
      MarkTwice(op, dirty, page, sc.count, c);
      sc' := sc.(start := start + n, bitInPage := bitInPage / 32 * 32 + 32 * peers);
      if op.Count? {
        sc' := sc'.(total := sc.total + c);
      } else {
        sc' := sc'.(count := sc.count + c);
      }
      if op.Extract? {
        ExtractWord(p0, peers, k, base, start, n, end, page, bitInPage, sc.out, got);
        sc' := sc'.(out := sc.out + [got]);
      }
    }

    method Segment(op: Op, k: nat, n: nat, end: nat, buffer: seq<Words.Word>, base: nat, sc: Scan,
                   ghost p0: seq<Page>, ghost dirty: set<nat>) returns (sc': Scan)
      requires StepOk(op, k, n, end, buffer, base, p0, dirty, sc)
      modifies this`pages
      ensures if sc'.hit then
                && op.IsFind() && pages == p0
                && sc' == sc.(hit := true, at := FindFrom(p0, peers, k, base, end, op.Seeks())) && sc'.at <= end
              else
                ScanOk(op, k, end, buffer, base, p0, dirty, sc') && sc'.start == sc.start + n && sc'.page == sc.page
    {
      hide Progress, Addresses, FindFrom, OutWords;
      if op.IsFind() {
        sc' := SeekWord(op, k, n, end, buffer, base, sc, p0, dirty);
      } else {
        sc' := DoWord(op, k, n, end, buffer, base, sc, p0, dirty);
      }
    }

    /** The part of the range on one page: a partial head word, whole words, then a partial tail word. */
    method ScanPage(op: Op, k: nat, end: nat, buffer: seq<Words.Word>, base: nat, sc0: Scan,
                    ghost p0: seq<Page>, ghost dirty: set<nat>) returns (sc: Scan)
      requires ScanOk(op, k, end, buffer, base, p0, dirty, sc0) && !op.Test?
      requires base <= sc0.start <= end && sc0.bitInPage < PAGE_BITS && !sc0.hit
      requires op.Merge? || op.Extract? ==> Aligned(base) && Aligned(sc0.start)
      requires op.Merge? ==> end < base + 32 * |buffer|
      modifies this`pages
      ensures if sc.hit then
                op.IsFind() && pages == p0 && sc.at == FindFrom(p0, peers, k, base, end, op.Seeks()) <= end
              else
                && ScanOk(op, k, end, buffer, base, p0, dirty, sc) && sc.start > sc0.start
                && (sc.start <= end ==> sc.bitInPage >= PAGE_BITS)
                && (op.Merge? || op.Extract? ==> sc.start > end || Aligned(sc.start))
    {
      hide ScanOk, FindFrom, Aligned, Fits, WordEnd;
      sc := sc0;
      FitsHere(sc.start, end);
      if !Aligned(sc.start) && WordEnd(sc.start) <= end {
        sc := Segment(op, k, WordEnd(sc.start) + 1 - sc.start, end, buffer, base, sc, p0, dirty);
      }
      while !sc.hit && sc.bitInPage < PAGE_BITS && sc.start + 31 <= end
        invariant if sc.hit then
                    op.IsFind() && pages == p0 && sc.at == FindFrom(p0, peers, k, base, end, op.Seeks()) <= end
                  else ScanOk(op, k, end, buffer, base, p0, dirty, sc)
        invariant sc.start > sc0.start || (sc.start == sc0.start && sc.bitInPage < PAGE_BITS)
        invariant !sc.hit && sc.start <= end ==> Aligned(sc.start) || WordEnd(sc.start) > end
        invariant op.Merge? || op.Extract? ==> sc.start > end || Aligned(sc.start)
        decreases end + 1 - sc.start, !sc.hit
      {
        FitsHere(sc.start, end);
        sc := Segment(op, k, 32, end, buffer, base, sc, p0, dirty);
      }
      if !sc.hit && sc.bitInPage < PAGE_BITS && sc.start <= end {
        FitsHere(sc.start, end);
        sc := Segment(op, k, end + 1 - sc.start, end, buffer, base, sc, p0, dirty);
      }
    }

    /** The page loop of `____bm_op` over a non-empty range within the bitmap. */
    method ScanRange(op: Op, k: nat, start0: nat, end: nat, end0: nat, buffer: seq<Words.Word>)
      returns (r: int, out: seq<Words.Word>)
      requires Shape() && k < peers && start0 <= end < bits && !op.Test?
      requires op.Merge? || op.Extract? ==> start0 % 32 == 0
      requires op.Merge? ==> end < start0 + 32 * |buffer|
      modifies this`pages, this`needWriteout, this`lazyWriteout
      ensures |pages| == |old(pages)| && Applied(op, old(pages), pages, peers, k, start0, end, buffer)
      ensures !op.Writes() ==> pages == old(pages)
      ensures r == Result(op, old(pages), pages, peers, k, start0, end, end0)
      ensures op.Extract? ==> OutWords(old(pages), peers, k, start0, end, out) && start0 + 32 * |out| > end
      ensures Flagged(old(needWriteout), needWriteout, old(pages), if op.Clear? then old(pages) else pages)
      ensures Flagged(old(lazyWriteout), lazyWriteout, old(pages), if op.Clear? then pages else old(pages))
    {
      hide Run, FindFrom, WordIndex, BitAt, OutWords, Applied, Result, Flagged;
      assert op.Merge? || op.Extract? ==> Aligned(start0);
      var w := WordIndex(peers, k, start0);
      var sc := Scan(start0, w / PAGE_WORDS, w % PAGE_WORDS * 32 + start0 % 32, 0, 0, [], false, 0);
      ghost var p0, dirty := pages, {};
      PeerHolds(pages, peers, k, end, bits - 1);
      ProgressStart(op, p0, peers, k, start0, end, buffer);
      NoWords(p0, peers, k, start0, end);
      while sc.start <= end
        invariant ScanOk(op, k, end, buffer, start0, p0, dirty, sc) && sc.count == 0 && !sc.hit
        invariant sc.start <= end ==> sc.bitInPage < PAGE_BITS
        invariant op.Merge? || op.Extract? ==> sc.start > end || Aligned(sc.start)
        invariant needWriteout == old(needWriteout) + if op.Clear? then {} else dirty
        invariant lazyWriteout == old(lazyWriteout) + if op.Clear? then dirty else {}
        decreases end + 1 - sc.start
      {
        sc := ScanPage(op, k, end, buffer, start0, sc, p0, dirty);
        if sc.hit {
          FoundHere(op, p0, peers, k, start0, end, end0, buffer);
          AddFlags(old(needWriteout), {}, p0, p0);
          AddFlags(old(lazyWriteout), {}, p0, p0);
          return sc.at, [];
        }
        dirty := Mark(op, dirty, sc.page, sc.count);
        if sc.count > 0 && op.Clear? {
          lazyWriteout := lazyWriteout + {sc.page};
        } else if sc.count > 0 && (op.Set? || op.Merge?) {
          needWriteout := needWriteout + {sc.page};
        }
        sc := sc.(page := sc.page + 1, bitInPage := if sc.start <= end then sc.bitInPage - PAGE_BITS else 0,
                  total := sc.total + sc.count, count := 0);
      }
      Finish(op, p0, pages, dirty, sc.total, peers, k, start0, end, end0, buffer);
      AddFlags(old(needWriteout), dirty, p0, pages);
      AddFlags(old(lazyWriteout), dirty, p0, pages);
      return if op.IsFind() then NoMatch(op, end0) else sc.total, sc.out;
    }

    /** `____bm_op`: applies `op` to the bits `start0..end0` of peer `k`, clipped to the size of the bitmap. */
    method BmOp(op: Op, k: nat, start0: nat, end0: nat, buffer: seq<Words.Word>) returns (r: int, out: seq<Words.Word>)
      requires Shape() && k < peers
      requires op.Merge? || op.Extract? ==> start0 % 32 == 0
      requires op.Merge? ==> Clip(bits, end0) < start0 + 32 * |buffer|
      modifies this`pages, this`needWriteout, this`lazyWriteout, this`bmSet
      ensures Shape() && |pages| == |old(pages)|
      ensures Applied(op, old(pages), pages, peers, k, start0, Clip(bits, end0), buffer)
      ensures !op.Writes() ==> pages == old(pages)
      ensures r == Result(op, old(pages), pages, peers, k, start0, Clip(bits, end0), end0)
      ensures op.FindBit? ==> FirstFound(old(pages), peers, k, start0, Clip(bits, end0), true, END_OF_BITMAP, r)
      ensures op.FindZeroBit? ==> FirstFound(old(pages), peers, k, start0, Clip(bits, end0), false, END_OF_BITMAP, r)
      ensures op.RangeFindBit? ==>
                FirstFound(old(pages), peers, k, start0, Clip(bits, end0), true, (end0 + 1) % U64, r)
      ensures op.RangeFindZeroBit? ==>
                FirstFound(old(pages), peers, k, start0, Clip(bits, end0), false, (end0 + 1) % U64, r)
      ensures op.Extract? ==>
                OutWords(old(pages), peers, k, start0, Clip(bits, end0), out) && start0 + 32 * |out| > Clip(bits, end0)
      ensures Flagged(old(needWriteout), needWriteout, old(pages), if op.Clear? then old(pages) else pages)
      ensures Flagged(old(lazyWriteout), lazyWriteout, old(pages), if op.Clear? then pages else old(pages))
      ensures bmSet == if op.Writes() then old(bmSet)[k := old(bmSet)[k] + if op.Clear? then -r else r] else old(bmSet)
    {
      hide FindFrom, WordIndex, BitAt, OutWords, Applied, Result, Flagged, FirstFound;
      var end: int := if end0 >= bits then bits - 1 else end0;
      if start0 > end {
        NothingDone(op, pages, peers, k, start0, end, end0, buffer);
        SameFlags(needWriteout, pages);
        SameFlags(lazyWriteout, pages);
        FindIs(op, pages, pages, peers, k, start0, end, end0);
        return NoMatch(op, end0), [];
      }
      if op.Test? {
        var w := WordIndex(peers, k, start0);
        var page, bitInPage := w / PAGE_WORDS, w % PAGE_WORDS * 32 + start0 % 32;
        PeerHolds(pages, peers, k, end, bits - 1);
        TestHere(pages, peers, k, start0, end, end0, page, bitInPage, buffer);
        SameFlags(needWriteout, pages);
        SameFlags(lazyWriteout, pages);
        return if pages[page][bitInPage / 32][bitInPage % 32] then 1 else 0, [];
      }
      r, out := ScanRange(op, k, start0, end, end0, buffer);
      FindIs(op, old(pages), pages, peers, k, start0, end, end0);
      FlagsWithin(old(needWriteout), needWriteout, old(pages), if op.Clear? then old(pages) else pages);
      FlagsWithin(old(lazyWriteout), lazyWriteout, old(pages), if op.Clear? then pages else old(pages));
      if op.Writes() {
        bmSet := bmSet[k := bmSet[k] + if op.Clear? then -r else r];
      }
    }

    /** `bm_op`, which does nothing without bits, on a bitmap whose weights are right keeps them right. */
    method Apply(op: Op, k: nat, start: nat, end: nat, buffer: seq<Words.Word>) returns (r: int, out: seq<Words.Word>)
      requires Valid() && k < peers
      requires op.Merge? || op.Extract? ==> start % 32 == 0
      requires op.Merge? ==> Clip(bits, end) < start + 32 * |buffer|
      modifies this`pages, this`needWriteout, this`lazyWriteout, this`bmSet
      ensures Valid()
      ensures Applied(op, old(pages), pages, peers, k, start, Clip(bits, end), buffer)
      ensures !op.Writes() ==> pages == old(pages) && bmSet == old(bmSet)
      ensures r == if bits == 0 then 0 else Result(op, old(pages), pages, peers, k, start, Clip(bits, end), end)
      ensures !op.IsFind() ==> r == Result(op, old(pages), pages, peers, k, start, Clip(bits, end), end)
      ensures op.FindBit? && bits > 0 ==>
                FirstFound(old(pages), peers, k, start, Clip(bits, end), true, END_OF_BITMAP, r)
      ensures op.FindZeroBit? && bits > 0 ==>
                FirstFound(old(pages), peers, k, start, Clip(bits, end), false, END_OF_BITMAP, r)
      ensures op.Extract? ==>
                OutWords(old(pages), peers, k, start, Clip(bits, end), out) && start + 32 * |out| > Clip(bits, end)
      ensures Flagged(old(needWriteout), needWriteout, old(pages), if op.Clear? then old(pages) else pages)
      ensures Flagged(old(lazyWriteout), lazyWriteout, old(pages), if op.Clear? then pages else old(pages))
    {
      hide Applied, Result, Flagged, OutWords, BitmapWeight.Weight, FirstFound;
      if bits == 0 {
        NothingDone(op, pages, peers, k, start, Clip(bits, end), end, buffer);
        SameFlags(needWriteout, pages);
        SameFlags(lazyWriteout, pages);
        return 0, [];
      }
      r, out := BmOp(op, k, start, end, buffer);
      if op.Writes() {
        forall q | 0 <= q < peers ensures bmSet[q] == BitmapWeight.Weight(pages, peers, q, bits) {
          BitmapWeight.AppliedWeight(op, old(pages), pages, peers, k, start, Clip(bits, end), end, buffer, bits, q);
        }
      }
    }

    /**
     * `__bm_many_bits_op`: page-sized chunks, equal to one operation on the whole range. The bit the loop stands at
     * goes through `BitAfter`, which gets past the end exactly if there are bits (`ManyBitsEnds`).
     */
    method ManyBits(op: Op, k: nat, start: nat, end0: nat)
      requires Valid() && k < peers && bits > 0 && start <= END_OF_BITMAP && end0 <= END_OF_BITMAP
      requires op.Set? || op.Clear?
      modifies this`pages, this`needWriteout, this`lazyWriteout, this`bmSet
      ensures Valid()
      ensures Applied(op, old(pages), pages, peers, k, start, Clip(bits, end0), [])
    {
      hide Applied, Result, Flagged, OutWords, LastBitOnPage, BitAfter;
      NoTurns(peers, k, start, LastBit(bits, end0));
      var bit, end := start, if end0 >= bits then bits - 1 else end0;
      ghost var turns := 0;
      assert end == LastBit(bits, end0);
      BitmapWeight.AppliedNothing(op, pages, peers, k, start);
      while bit <= end
        invariant Valid() && start <= bit && (bit <= end + 1 || bit == start)
        invariant Applied(op, old(pages), pages, peers, k, start, bit - 1, [])
        invariant bit == BitAfter(peers, k, start, end, turns)
        decreases end + 1 - bit
      {
        LastBitOnPageIsGreatest(peers, k, bit, 0);
        NextTurn(peers, k, start, end, turns);
        var last := LastBitOnPage(peers, k, bit);
        if end < last {
          last := end;
        }
        ghost var p1 := pages;
        var r, out := Apply(op, k, bit, last, []);
        BitmapWeight.AppliedTwice(op, old(pages), p1, pages, peers, k, start, bit, last);
        bit, turns := last + 1, turns + 1;
      }
      if start > end {
        BitmapWeight.AppliedNothingBelow(op, old(pages), pages, peers, k, start, bit - 1, end);
      }
    }

    /** Counts peer `q` page by page. */
    method CountPeer(q: nat) returns (bitsSet: int)
      requires Shape() && q < peers
      modifies this`bmSet, this`pages, this`needWriteout, this`lazyWriteout
      ensures bitsSet == BitmapWeight.Weight(pages, peers, q, bits)
      ensures Shape() && pages == old(pages) && bmSet == old(bmSet)
      ensures needWriteout == old(needWriteout) && lazyWriteout == old(lazyWriteout)
    {
      hide Applied, Flagged, LastBitOnPage, Holds;
      var bit := 0;
      bitsSet := 0;
      while bit < bits
        invariant Shape() && pages == old(pages) && bmSet == old(bmSet)
        invariant needWriteout == old(needWriteout) && lazyWriteout == old(lazyWriteout)
        invariant bitsSet == CountRange(pages, peers, q, 0, if bit <= bits then bit else bits)
        decreases bits - bit
      {
        LastBitOnPageIsGreatest(peers, q, bit, 0);
        var last := LastBitOnPage(peers, q, bit);
        var c, out := BmOp(Count, q, bit, last, []);
        CountRangeSplit(pages, peers, q, 0, bit, Clip(bits, last) + 1);
        FlagsSame(old(needWriteout), needWriteout, pages);
        FlagsSame(old(lazyWriteout), lazyWriteout, pages);
        bitsSet := bitsSet + c;
        bit := last + 1;
      }
    }

    /** `bm_count_bits`: recounts every peer. */
    method CountBits()
      requires Shape()
      modifies this`bmSet, this`pages, this`needWriteout, this`lazyWriteout
      ensures Valid() && pages == old(pages) && needWriteout == old(needWriteout) && lazyWriteout == old(lazyWriteout)
    {
      for q := 0 to peers
        invariant Shape() && pages == old(pages) && needWriteout == old(needWriteout)
        invariant lazyWriteout == old(lazyWriteout)
        invariant forall j :: 0 <= j < q ==> bmSet[j] == BitmapWeight.Weight(pages, peers, j, bits)
      {
        var bitsSet := CountPeer(q);
        bmSet := bmSet[q := bitsSet];
      }
    }

    /** The growing branch of `bsr_bm_resize`: gives the bits beyond `obits` their initial value. */
    method InitNewBits(obits: nat, setNewBits: bool)
      requires Shape() && obits < bits <= END_OF_BITMAP
      requires forall q :: 0 <= q < peers ==> bmSet[q] == BitmapWeight.Weight(pages, peers, q, obits)
      modifies this`pages, this`needWriteout, this`lazyWriteout, this`bmSet
      ensures Valid() && |pages| == |old(pages)|
      ensures Grown(old(pages), pages, peers, peers, obits, bits, setNewBits)
      ensures Redirtied(old(pages), pages, old(needWriteout), needWriteout, old(lazyWriteout), lazyWriteout)
      ensures BlankFlags(old(pages), pages, old(needWriteout), needWriteout, old(lazyWriteout), lazyWriteout)
    {
      hide Applied, Result, Flagged, Holds, BitAt, Redirtied, BlankFlags, Grown, Blank;
      var op := if setNewBits then Set else Clear;
      NothingRedirtied(pages, needWriteout, lazyWriteout);
      NotGrownYet(pages, peers, obits, bits, setNewBits);
      for k := 0 to peers
        invariant Shape() && |pages| == |old(pages)| && Grown(old(pages), pages, peers, k, obits, bits, setNewBits)
        invariant Redirtied(old(pages), pages, old(needWriteout), needWriteout, old(lazyWriteout), lazyWriteout)
        invariant BlankFlags(old(pages), pages, old(needWriteout), needWriteout, old(lazyWriteout), lazyWriteout)
        invariant op.Clear? ==> forall p :: 0 <= p < |pages| && Blank(old(pages)[p]) ==> Blank(pages[p])
        invariant forall q :: 0 <= q < k ==> bmSet[q] == BitmapWeight.Weight(pages, peers, q, bits)
        invariant forall q :: k <= q < peers ==> bmSet[q] == BitmapWeight.Weight(pages, peers, q, obits)
      {
        var saved := bmSet[k];
        ghost var p1, need1, lazy1 := pages, needWriteout, lazyWriteout;
        var r, out := BmOp(op, k, obits, END_OF_BITMAP, []);
        MoreRedirtied(op, old(pages), p1, pages, old(needWriteout), need1, needWriteout, old(lazyWriteout), lazy1,
                      lazyWriteout);
        MoreBlankFlags(op, old(pages), p1, pages, old(needWriteout), need1, needWriteout, old(lazyWriteout), lazy1,
                       lazyWriteout, peers, k, obits, Clip(bits, END_OF_BITMAP));
        BitmapWeight.GrownPeer(op, p1, pages, peers, k, obits, bits);
        GrownMore(old(pages), p1, pages, peers, k, obits, bits, setNewBits);
        bmSet := bmSet[k := if setNewBits then saved + (bits - obits) else saved];
      }
    }

    /**
     * `bsr_bm_resize`. `hasDisk` says whether there is a local disk, whose metadata must then have room, and
     * `allocOk` whether the page allocation succeeds. Pages beyond the old ones are allocated as zeros and flagged
     * only if bits in them are set: what was written before stays written, but a new page without a flag counts as
     * written only if the metadata area happens to hold zeros there. Page flags go with the pages; the hint array
     * stays.
     */
    method Resize(capacity: nat, setNewBits: bool, hasDisk: bool, allocOk: bool) returns (err: ResizeResult)
      requires Valid() && capacity <= END_OF_BITMAP
      modifies this
      ensures Valid() && disk == old(disk) && hints == old(hints)
      ensures err == NoSpace <==>
                && capacity != old(devCapacity) && capacity != 0 && hasDisk
                && BitmapWeight.PagesFor(BitmapWeight.WordsFor(BitmapWeight.BitsFor(capacity), peers)) > |disk|
      ensures err == NoMemory <==>
                && err != NoSpace && capacity != old(devCapacity) && capacity != 0 && !allocOk
                && BitmapWeight.PagesFor(BitmapWeight.WordsFor(BitmapWeight.BitsFor(capacity), peers)) != |old(pages)|
      ensures err == Resized && capacity != old(devCapacity) ==>
                && devCapacity == capacity && (hasDisk ==> |pages| <= |disk|)
                && BitmapWeight.OneBitPerBlock(bits, capacity) && bits == BitmapWeight.BitsFor(capacity)
                && words == BitmapWeight.WordsFor(bits, peers) && |pages| == BitmapWeight.PagesFor(words)
                && hinted == (set p | p in old(hinted) && p < |pages|)
      ensures err != Resized || capacity == old(devCapacity) ==>
                && pages == old(pages) && bits == old(bits) && bmSet == old(bmSet) && devCapacity == old(devCapacity)
                && needWriteout == old(needWriteout) && lazyWriteout == old(lazyWriteout) && hinted == old(hinted)
      ensures BitsKept(old(pages), pages, peers, old(bits), bits, setNewBits)
      ensures FlagsKept(old(pages), pages, old(needWriteout), needWriteout, old(lazyWriteout), lazyWriteout, disk,
                        setNewBits, peers, old(bits), bits)
    {
      hide BitAt, Holds, BitmapWeight.BitsFor, BitmapWeight.WordsFor, BitmapWeight.PagesFor, BitmapWeight.Weight,
        BitsKept, FlagsKept, Blank;
      SameKept(pages, peers, bits, needWriteout, lazyWriteout, disk, setNewBits);
      if capacity == devCapacity {
        return Resized;
      }
      if capacity == 0 {
        NoneKept(pages, peers, bits, needWriteout, lazyWriteout, disk, setNewBits);
        pages, needWriteout, lazyWriteout, hinted := [], {}, {}, {};
        bmSet := seq(peers, _ => 0);
        bits, words, devCapacity := 0, 0, 0;
        BitmapWeight.NoBits(pages, peers);
        BitmapWeight.NothingNeeded(peers);
        return Resized;
      }
      var newBits := BitmapWeight.BitsFor(capacity);
      var newWords := BitmapWeight.WordsFor(newBits, peers);
      BitmapWeight.RoomOnDisk(newBits, peers, |disk|);
      if hasDisk && newBits > BitmapWeight.OnDiskBits(|disk|, peers) {
        return NoSpace;
      }
      var want, have := BitmapWeight.PagesFor(newWords), |pages|;
      if want != have && !allocOk {
        return NoMemory;
      }
      Refit(capacity, newBits, newWords, want, setNewBits);
      return Resized;
    }

    /** `bsr_bm_resize` once the new pages are there. */
    method Refit(capacity: nat, newBits: nat, newWords: nat, want: nat, setNewBits: bool)
      requires Valid() && 0 < capacity <= END_OF_BITMAP && newBits == BitmapWeight.BitsFor(capacity)
      requires newWords == BitmapWeight.WordsFor(newBits, peers) && want == BitmapWeight.PagesFor(newWords)
      modifies this
      ensures Valid() && disk == old(disk) && hints == old(hints)
      ensures devCapacity == capacity && bits == newBits && words == newWords && |pages| == want
      ensures hinted == (set p | p in old(hinted) && p < want)
      ensures BitsKept(old(pages), pages, peers, old(bits), bits, setNewBits)
      ensures FlagsKept(old(pages), pages, old(needWriteout), needWriteout, old(lazyWriteout), lazyWriteout, disk,
                        setNewBits, peers, old(bits), bits)
    {
      hide BitAt, Holds, BitmapWeight.BitsFor, BitmapWeight.WordsFor, BitmapWeight.PagesFor, BitmapWeight.Weight,
        Redirtied, BlankFlags, Grown, FlagsKept, BitsKept, Blank, Realloc, Reallocate;
      var obits := bits;
      ghost var p0 := pages;
      pages := Reallocate(pages, want);
      needWriteout := set p | p in needWriteout && p < want;
      lazyWriteout := set p | p in lazyWriteout && p < want;
      hinted := set p | p in hinted && p < want;
      bits, words, devCapacity := newBits, newWords, capacity;
      BitmapWeight.Reallocated(p0, pages, peers, obits, bits, capacity);
      BitsFit(capacity);
      BitmapWeight.BitsForIs(capacity);
      ghost var p1, need1, lazy1 := pages, needWriteout, lazyWriteout;
      NothingRedirtied(p1, need1, lazy1);
      if bits > obits {
        InitNewBits(obits, setNewBits);
        GrownKept(p1, pages, peers, obits, bits, setNewBits);
      } else {
        CountBits();
        OldBits(p1, peers, obits, bits, setNewBits);
      }
      BitsVia(p0, p1, pages, peers, obits, bits, setNewBits);
      RefitFlags(p0, p1, pages, old(needWriteout), need1, needWriteout, old(lazyWriteout), lazy1, lazyWriteout, disk,
                 setNewBits, peers, obits, bits);
    }

    /** Between transactions no page is left flagged; within one, exactly the listed pages are. */
    ghost predicate HintsOk()
      reads this
    {
      && (forall i :: 0 <= i < |hints| ==> hints[i] in hinted)
      && (forall p :: p in hinted ==> p in hints) && (forall i, j :: 0 <= i < j < |hints| ==> hints[i] != hints[j])
      && |hints| <= 2 * AL_UPDATES_PER_TRANSACTION
    }

    /** A page without a dirty flag is on disk as it is in memory. */
    ghost predicate Written()
      reads this
    {
      OnDisk(pages, needWriteout, lazyWriteout, disk)
    }

    /** `push_al_bitmap_hint`; a full array is a BUG. */
    method PushHint(page: nat)
      requires HintsOk() && |hints| < 2 * AL_UPDATES_PER_TRANSACTION && page < |pages|
      modifies this`hints, this`hinted
      ensures HintsOk() && hinted == old(hinted) + {page} && |hints| <= |old(hints)| + 1
    {
      if page !in hinted {
        hinted := hinted + {page};
        hints := hints + [page];
      }
    }

    /** `bsr_bm_mark_range_for_writeout` for the bits `start..end0` of all peers. */
    method MarkRange(start: nat, end0: nat)
      requires Shape() && HintsOk() && bits > 0
      requires |hints| + HintPages(peers, start, Clip(bits, end0)) <= 2 * AL_UPDATES_PER_TRANSACTION
      modifies this`hints, this`hinted
      ensures Shape() && HintsOk() && |hints| <= |old(hints)| + HintPages(peers, start, Clip(bits, end0))
      ensures forall p :: p in hinted <==>
                p in old(hinted) || PageOf(peers, 0, start) <= p <= PageOf(peers, peers - 1, Clip(bits, end0))
    {
      hide PageOf, Holds;
      var end := if end0 >= bits then bits - 1 else end0;
      var page, last := PageOf(peers, 0, start), PageOf(peers, peers - 1, end);
      LastPageExists(pages, peers, end, bits);
      while page <= last
        invariant PageOf(peers, 0, start) <= page && (page <= last + 1 || page == PageOf(peers, 0, start))
        invariant HintsOk() && |hints| <= |old(hints)| + (page - PageOf(peers, 0, start))
        invariant forall p :: p in hinted <==> p in old(hinted) || PageOf(peers, 0, start) <= p < page
        decreases last + 1 - page
      {
        PushHint(page);
        page := page + 1;
      }
    }

    /**
     * The hint part of `__al_write_transaction`: starts from no hints and marks the pages of every evicted
     * extent, and no others. At most 64 extents go into one transaction, so the hint array never overflows.
     */
    method MarkExtents(evicted: seq<nat>)
      requires Shape() && bits > 0 && hinted == {}
      requires |evicted| <= AL_UPDATES_PER_TRANSACTION
      modifies this`hints, this`hinted
      ensures Shape() && HintsOk()
      ensures forall p :: p in hinted <==> exists j :: 0 <= j < |evicted| && MarksPage(peers, bits, evicted[j], p)
      ensures forall j, q, b | 0 <= j < |evicted| && 0 <= q < peers && 0 <= b < bits
                               && b / AL_EXTENT_BITS == evicted[j] ::
                PageOf(peers, q, b) in hinted
    {
      hide PageOf, MarksPage;
      hints := [];
      for i := 0 to |evicted|
        invariant Shape() && HintsOk() && |hints| <= 2 * i
        invariant forall p :: p in hinted <==> exists j :: 0 <= j < i && MarksPage(peers, bits, evicted[j], p)
      {
        MarkExtent(evicted[i]);
      }
      forall j, q, b | 0 <= j < |evicted| && 0 <= q < peers && 0 <= b < bits && b / AL_EXTENT_BITS == evicted[j]
        ensures PageOf(peers, q, b) in hinted
      {
        ExtentIsMarked(peers, bits, q, b);
      }
    }

    /** One evicted extent: its pages, at most two of them. */
    method MarkExtent(enr: nat)
      requires Shape() && HintsOk() && bits > 0 && |hints| + 2 <= 2 * AL_UPDATES_PER_TRANSACTION
      modifies this`hints, this`hinted
      ensures Shape() && HintsOk() && |hints| <= |old(hints)| + 2
      ensures forall p :: p in hinted <==> p in old(hinted) || MarksPage(peers, bits, enr, p)
    {
      hide PageOf;
      var start, end := enr * AL_EXTENT_BITS, (enr + 1) * AL_EXTENT_BITS - 1;
      ExtentOnTwoPages(peers, enr);
      PageBetween(peers, peers - 1, Clip(bits, end), Clip(bits, end), end);
      MarkRange(start, end);
    }

    /** `bm_page_io_async` for one write that succeeds: flags are cleared, then the page goes to disk. */
    method WritePage(page: nat)
      requires page < |pages| <= |disk|
      modifies this`needWriteout, this`lazyWriteout, this`disk
      ensures needWriteout == old(needWriteout) - {page} && lazyWriteout == old(lazyWriteout) - {page}
      ensures disk == old(disk)[page := pages[page]]
    {
      needWriteout, lazyWriteout := needWriteout - {page}, lazyWriteout - {page};
      disk := disk[page := pages[page]];
    }

    /** `bsr_bm_write_hinted`: writes the changed ones among the hinted pages, and leaves no page hinted. */
    method WriteHinted()
      requires Shape() && HintsOk() && |pages| <= |disk|
      modifies this`needWriteout, this`lazyWriteout, this`disk, this`hinted
      ensures Shape() && hinted == {}
      ensures needWriteout == old(needWriteout) - old(hinted) && lazyWriteout == old(lazyWriteout) - old(hinted)
      ensures Wrote(old(disk), disk, pages, old(hinted) * (old(needWriteout) + old(lazyWriteout)))
      ensures Written() <==> old(Written())
    {
      hide Holds, Wrote, OnDisk;
      ghost var done: set<nat>, written: set<nat> := {}, {};
      NothingWrote(disk, pages);
      for h := 0 to |hints|
        invariant |disk| == |old(disk)| && done <= old(hinted) && hinted == old(hinted) - done
        invariant forall j :: 0 <= j < h ==> hints[j] in done
        invariant needWriteout == old(needWriteout) - done && lazyWriteout == old(lazyWriteout) - done
        invariant written == done * (old(needWriteout) + old(lazyWriteout)) && Wrote(old(disk), disk, pages, written)
      {
        var i := hints[h];
        if i < |pages| && i in hinted {
          ghost var disk1 := disk;
          hinted := hinted - {i};
          if i in needWriteout || i in lazyWriteout {
            WritePage(i);
            WroteMore(old(disk), disk1, disk, pages, written, i);
            written := written + {i};
          }
          done := done + {i};
        }
      }
      assert done == old(hinted);
      WroteOnDisk(old(disk), disk, pages, old(needWriteout), old(lazyWriteout), done);
    }

    /**
     * The other page loop of `bm_rw_range`: all pages of the range, all changed ones, or, whatever else is asked for,
     * those marked for lazy write-out.
     */
    method WriteRange(startPage: nat, endPage: nat, allPages: bool, lazyOnly: bool)
      requires Shape() && |pages| <= |disk|
      modifies this`needWriteout, this`lazyWriteout, this`disk
      ensures Shape() && |disk| == |old(disk)|
      ensures forall p :: 0 <= p < |pages| && startPage <= p <= endPage ==>
                var written := if lazyOnly then p in old(lazyWriteout)
                               else allPages || p in old(needWriteout) || p in old(lazyWriteout);
                && disk[p] == (if written then pages[p] else old(disk)[p])
                && (p in needWriteout <==> p in old(needWriteout) && !written)
                && (p in lazyWriteout <==> p in old(lazyWriteout) && !written)
      ensures forall p :: 0 <= p < |disk| && !(p < |pages| && startPage <= p <= endPage) ==> disk[p] == old(disk)[p]
      ensures forall p :: 0 <= p < |pages| && !(startPage <= p <= endPage) ==>
                (p in needWriteout <==> p in old(needWriteout)) && (p in lazyWriteout <==> p in old(lazyWriteout))
      ensures old(Written()) ==> Written()
      ensures allPages && !lazyOnly && startPage == 0 && endPage + 1 >= |pages| ==> Written()
    {
      hide Holds;
      var end: int := if endPage >= |pages| then |pages| - 1 else endPage;
      var i := startPage;
      while i <= end
        invariant Shape() && startPage <= i && (i <= end + 1 || i == startPage) && |disk| == |old(disk)|
        invariant forall p :: 0 <= p < |pages| && startPage <= p < i ==>
                    var written := if lazyOnly then p in old(lazyWriteout)
                                   else allPages || p in old(needWriteout) || p in old(lazyWriteout);
                    && disk[p] == (if written then pages[p] else old(disk)[p])
                    && (p in needWriteout <==> p in old(needWriteout) && !written)
                    && (p in lazyWriteout <==> p in old(lazyWriteout) && !written)
        invariant forall p :: 0 <= p < |disk| && !(startPage <= p < i) ==> disk[p] == old(disk)[p]
        invariant forall p :: 0 <= p < |pages| && !(startPage <= p < i) ==>
                    (p in needWriteout <==> p in old(needWriteout)) && (p in lazyWriteout <==> p in old(lazyWriteout))
        decreases end + 1 - i
      {
        if (allPages || i in needWriteout || i in lazyWriteout) && (!lazyOnly || i in lazyWriteout) {
          WritePage(i);
        }
        i := i + 1;
      }
    }
  }

  lemma BitsFit(capacity: nat)
    requires capacity <= END_OF_BITMAP
    ensures BitmapWeight.BitsFor(capacity) <= MAX_BITS
  {
  }

  lemma BitsBounded(bm: BsrBitmap)
    requires bm.Valid()
    ensures bm.bits <= MAX_BITS
  {
  }

  // ---- when the loop of `__bm_many_bits_op` ends

  /** The last bit of the range, as 64-bit arithmetic clips it: without bits, `bits - 1` is the largest number. */
  function LastBit(bits: nat, end0: nat): nat {
    if end0 >= bits then (bits - 1) % U64 else end0
  }

  /** The bit the loop stands at after `n` turns. */
  function BitAfter(peers: nat, k: nat, start: nat, end: nat, n: nat): (bit: nat)
    requires peers > 0 && start <= END_OF_BITMAP
    ensures bit <= END_OF_BITMAP
  {
    if n == 0 then start
    else
      var bit := BitAfter(peers, k, start, end, n - 1);
      if bit > end then bit
      else
        var last := LastBitOnPage(peers, k, bit) % U64;
        ((if end < last then end else last) + 1) % U64
  }

  lemma LastIsNear(peers: nat, k: nat, bit: nat)
    requires peers > 0
    ensures bit <= LastBitOnPage(peers, k, bit) < bit + PAGE_BITS
  {
    var m := PAGE_WORDS - 1 - WordIndex(peers, k, bit) % PAGE_WORDS;
    assert 0 <= m / peers <= m;
  }

  lemma NoTurns(peers: nat, k: nat, start: nat, end: nat)
    requires peers > 0 && start <= END_OF_BITMAP
    ensures BitAfter(peers, k, start, end, 0) == start
  {
  }

  lemma OneTurn(peers: nat, k: nat, start: nat, end: nat, n: nat)
    requires peers > 0 && start <= END_OF_BITMAP && BitAfter(peers, k, start, end, n) <= end
    ensures var last := LastBitOnPage(peers, k, BitAfter(peers, k, start, end, n)) % U64;
      BitAfter(peers, k, start, end, n + 1) == ((if end < last then end else last) + 1) % U64
  {
    hide LastBitOnPage;
  }

  lemma Below64(x: nat)
    requires x < U64
    ensures x % U64 == x
  {
  }

  lemma NextTurn(peers: nat, k: nat, start: nat, end: nat, n: nat)
    requires peers > 0 && start <= END_OF_BITMAP && end < MAX_BITS && BitAfter(peers, k, start, end, n) <= end
    ensures var bit := BitAfter(peers, k, start, end, n);
      var last := LastBitOnPage(peers, k, bit);
      bit <= last && BitAfter(peers, k, start, end, n + 1) == (if end < last then end else last) + 1
  {
    hide LastBitOnPage, BitAfter;
    var last := LastBitOnPage(peers, k, BitAfter(peers, k, start, end, n));
    LastIsNear(peers, k, BitAfter(peers, k, start, end, n));
    OneTurn(peers, k, start, end, n);
    Below64(last);
    Below64((if end < last then end else last) + 1);
  }

  lemma {:induction false} TurnsAdvance(peers: nat, k: nat, start: nat, end: nat, n: nat)
    requires peers > 0 && start <= END_OF_BITMAP && end < MAX_BITS
    ensures BitAfter(peers, k, start, end, n) > end || BitAfter(peers, k, start, end, n) >= start + n
  {
    if n > 0 {
      TurnsAdvance(peers, k, start, end, n - 1);
      if BitAfter(peers, k, start, end, n - 1) <= end {
        hide LastBitOnPage, BitAfter;
        NextTurn(peers, k, start, end, n - 1);
      }
    }
  }

  /** The loop gets past the end exactly if there are bits: without, no number is past the largest one. */
  lemma ManyBitsEnds(peers: nat, k: nat, start: nat, bits: nat, end0: nat)
    requires peers > 0 && start <= END_OF_BITMAP && end0 <= END_OF_BITMAP && bits <= MAX_BITS
    ensures (exists n: nat :: BitAfter(peers, k, start, LastBit(bits, end0), n) > LastBit(bits, end0)) <==> bits > 0
  {
    hide BitAfter;
    var end := LastBit(bits, end0);
    if bits > 0 {
      TurnsAdvance(peers, k, start, end, end + 1);
      assert BitAfter(peers, k, start, end, end + 1) > end;
    }
  }

  /** The page of the last bit exists. */
  lemma LastPageExists(pages: seq<Page>, peers: nat, end: nat, bits: nat)
    requires peers > 0 && end < bits && Holds(pages, peers, peers - 1, bits - 1)
    ensures PageOf(peers, peers - 1, end) < |pages|
  {
    HoldsBelow(pages, peers, peers - 1, end, bits - 1);
  }

  /**
   * A metadata area that is not zero, and a new bitmap of one block in sync: its page has no flag, and is not on
   * disk.
   */
  method UnflaggedNotWritten(page: Page) returns (bm: BsrBitmap)
    requires !Blank(page)
    ensures bm.Valid() && !bm.Written() && bm.needWriteout == bm.lazyWriteout == {}
  {
    hide Blank, BitAt, BitmapWeight.Weight;
    bm := new BsrBitmap(1, [page]);
    var err := bm.Resize(8, false, true, true);
    assert bm.bits == 1 && 0 < |bm.pages|;
    assert 0 !in bm.needWriteout && 0 !in bm.lazyWriteout;
  }
}

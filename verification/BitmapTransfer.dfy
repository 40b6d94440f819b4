/** Sending a peer's out-of-sync bits in compressed or plain packets, and merging them at the receiver. */
module BitmapTransfer {
  import opened Arithmetic
  import opened Words
  import opened BitmapStore
  import opened BitmapOps
  import opened BitmapScan
  import opened Bitmap
  import BitmapWeight
  import opened Vli
  import opened RunLengths

  const BUFFER_SIZE := 4096
  const RANGE_FIND_NEXT_BIT := 25000000
  const EIO := 5
  const MAX_SECTORS_FLEX := 0x8_0000_0000_0000

  /** `bm_xfer_ctx`: how far the transfer has come, in bits and in 64-bit words. */
  datatype Ctx = Ctx(bits: nat, words: nat, bitOffset: nat, wordOffset: nat) {
    ghost predicate Ok() {
      && bits < Least(LEVELS) && bits + RANGE_FIND_NEXT_BIT < END_OF_BITMAP
      && words == (bits + 63) / 64 * 2
      && bitOffset <= bits && wordOffset <= words
      && (wordOffset == bitOffset / 64 || (bitOffset == bits && 64 * wordOffset >= bits))
    }

    /** After `n` plain words. */
    function AfterPlain(n: nat): Ctx {
      var w := wordOffset + n;
      Ctx(bits, words, if 64 * w > bits then bits else 64 * w, w)
    }

    /** After a compressed packet up to bit `at`. */
    function AfterRuns(at: nat): Ctx {
      Ctx(bits, words, at, at / 64)
    }

    function PlainWords(header: nat): nat
      requires wordOffset <= words && header <= BUFFER_SIZE
    {
      var room := (BUFFER_SIZE - header) / 8;
      if room <= words - wordOffset then room else words - wordOffset
    }
  }

  /** A compressed packet's bits in stream order, whole bytes; or 32-bit words of plain bitmap. */
  datatype Packet = Compressed(start: bool, padBits: nat, code: seq<bool>) | Plain(plain: seq<Word>)

  /** Header and payload, an encoding byte and the code or words of four bytes, fit the send buffer. */
  ghost predicate FitsBuffer(p: Packet, header: nat) {
    header + (if p.Compressed? then 1 + |p.code| / 8 else 4 * |p.plain|) <= BUFFER_SIZE
  }

  /** The bits of peer `k`. */
  ghost function BitsOf(pages: seq<Page>, peers: nat, k: nat, n: nat): (r: seq<bool>)
    ensures |r| == n
  {
    seq(n, b requires 0 <= b => BitAt(pages, peers, k, b))
  }

  /** The packet's code words are the run lengths of the bits from the context's offset on. */
  ghost predicate CarriesRuns(src: seq<bool>, c: Ctx, p: Packet, runs: seq<nat>) {
    && p.Compressed? && runs != [] && RunsOf(src, c.bitOffset, p.start, runs) && Codable(runs)
    && p.padBits < 8 && p.padBits <= |p.code| && p.code[..|p.code| - p.padBits] == Stream(runs)
  }

  // ---- the sender

  /** What a range search returns: the first match, or the bit after the range. */
  lemma ChunkResult(pages: seq<Page>, peers: nat, k: nat, bits: nat, from: nat, end: nat, val: bool, r: int)
    requires from <= end < END_OF_BITMAP
    requires r == Result(if val then RangeFindBit else RangeFindZeroBit,
                        pages, pages, peers, k, from, Clip(bits, end), end)
    ensures from <= r <= end + 1
    ensures forall b: nat :: from <= b < r && b < bits ==> BitAt(pages, peers, k, b) != val
    ensures r < end + 1 ==> r < bits && BitAt(pages, peers, k, r) == val
  {
    hide BitAt;
  }

  /** One chunk of the search. */
  method FindChunk(bm: BsrBitmap, k: nat, from: nat, val: bool) returns (at: nat)
    requires bm.Valid() && k < bm.peers && from <= bm.bits && bm.bits > 0
    requires bm.bits + RANGE_FIND_NEXT_BIT < END_OF_BITMAP
    modifies bm`pages, bm`needWriteout, bm`lazyWriteout, bm`bmSet
    ensures bm.Valid() && bm.pages == old(bm.pages)
    ensures bm.needWriteout == old(bm.needWriteout) && bm.lazyWriteout == old(bm.lazyWriteout)
    ensures bm.bmSet == old(bm.bmSet)
    ensures from <= at <= from + RANGE_FIND_NEXT_BIT + 1
    ensures forall b :: from <= b < at && b < bm.bits ==> BitAt(bm.pages, bm.peers, k, b) != val
    ensures at < from + RANGE_FIND_NEXT_BIT + 1 ==> at < bm.bits && BitAt(bm.pages, bm.peers, k, at) == val
  {
    hide BitAt, Applied, Result, Flagged, Clip, OutWords, BsrBitmap.Valid;
    var r, out := bm.Apply(if val then RangeFindBit else RangeFindZeroBit, k, from, from + RANGE_FIND_NEXT_BIT, []);
    FlagsSame(old(bm.needWriteout), bm.needWriteout, bm.pages);
    FlagsSame(old(bm.lazyWriteout), bm.lazyWriteout, bm.pages);
    ChunkResult(bm.pages, bm.peers, k, bm.bits, from, from + RANGE_FIND_NEXT_BIT, val, r);
    at := r;
  }

  /** The chunked search of `fill_bitmap_rle_bits`: the next bit of the wanted value, or the end. */
  method FindRun(bm: BsrBitmap, k: nat, from: nat, val: bool) returns (at: nat)
    requires bm.Valid() && k < bm.peers && from <= bm.bits && bm.bits > 0
    requires bm.bits + RANGE_FIND_NEXT_BIT < END_OF_BITMAP
    modifies bm`pages, bm`needWriteout, bm`lazyWriteout, bm`bmSet
    ensures bm.Valid() && bm.pages == old(bm.pages)
    ensures bm.needWriteout == old(bm.needWriteout) && bm.lazyWriteout == old(bm.lazyWriteout)
    ensures bm.bmSet == old(bm.bmSet)
    ensures from <= at <= bm.bits
    ensures forall b :: from <= b < at ==> BitAt(bm.pages, bm.peers, k, b) != val
    ensures at < bm.bits ==> BitAt(bm.pages, bm.peers, k, at) == val
  {
    hide BitAt, BsrBitmap.Valid;
    var offset := from;
    at := FindChunk(bm, k, offset, val);
    while !(at >= bm.bits || at < offset + RANGE_FIND_NEXT_BIT + 1)
      invariant from <= offset <= bm.bits
      invariant bm.Valid() && bm.pages == old(bm.pages)
      invariant bm.needWriteout == old(bm.needWriteout) && bm.lazyWriteout == old(bm.lazyWriteout)
      invariant bm.bmSet == old(bm.bmSet)
      invariant offset <= at <= offset + RANGE_FIND_NEXT_BIT + 1
      invariant forall b :: from <= b < at && b < bm.bits ==> BitAt(bm.pages, bm.peers, k, b) != val
      invariant at < offset + RANGE_FIND_NEXT_BIT + 1 ==> at < bm.bits && BitAt(bm.pages, bm.peers, k, at) == val
      decreases bm.bits - offset
    {
      offset := at;
      at := FindChunk(bm, k, offset, val);
    }
    if at > bm.bits {
      at := bm.bits;
    }
  }

  /** What the encoder has put into the stream: whole runs from the context's offset on. */
  ghost predicate Encoded(src: seq<bool>, from: nat, start: bool, runs: seq<nat>, stream: seq<bool>, at: nat) {
    && RunsOf(src, from, start, runs) && Codable(runs) && stream == Stream(runs)
    && at == from + Sum(runs) <= |src|
    && (at < |src| ==> src[at] == Polarity(start, |runs|))
  }

  /** The run of equal bits that begins at `at` ends before `next`. */
  ghost predicate RunEnds(src: seq<bool>, at: nat, next: nat) {
    && at < next <= |src| && (forall b :: at <= b < next ==> src[b] == src[at])
    && (next < |src| ==> src[next] != src[at])
  }

  /** All runs are in, or the next one does not fit. */
  ghost predicate Exhausted(src: seq<bool>, size: nat, stream: seq<bool>, at: nat) {
    || at == |src|
    || exists next: nat ::
         RunEnds(src, at, next) && Encode(next - at).Bits? && |stream| + |Encode(next - at).word| > 8 * size
  }

  lemma EncodedNone(src: seq<bool>, from: nat, start: bool)
    requires from < |src| && src[from] == start
    ensures Encoded(src, from, start, [], [], from)
  {
  }

  lemma EncodedMore(src: seq<bool>, from: nat, start: bool, runs: seq<nat>, stream: seq<bool>, at: nat, next: nat)
    requires Encoded(src, from, start, runs, stream, at) && RunEnds(src, at, next) && |src| < Least(LEVELS)
    ensures Encode(next - at).Bits? && 2 <= |Encode(next - at).word| <= 64
    ensures Encoded(src, from, start, runs + [next - at], stream + Encode(next - at).word, next)
  {
    hide Encode, Least, Stream, RunsOf, Sum;
    RoundTrip(next - at, []);
    AppendRun(src, from, start, runs, next - at);
    AppendStream(runs, next - at);
  }

  /** The encoder's loop: as many whole runs as the buffer holds. */
  method EncodeRuns(bm: BsrBitmap, k: nat, size: nat, c: Ctx)
    returns (start: bool, stream: seq<bool>, at: nat, ghost runs: seq<nat>)
    requires bm.Valid() && k < bm.peers && c.Ok() && c.bits == bm.bits && c.bitOffset < c.bits
    modifies bm`pages, bm`needWriteout, bm`lazyWriteout, bm`bmSet
    ensures bm.Valid() && bm.pages == old(bm.pages)
    ensures bm.needWriteout == old(bm.needWriteout) && bm.lazyWriteout == old(bm.lazyWriteout)
    ensures bm.bmSet == old(bm.bmSet)
    ensures |stream| <= 8 * size
    ensures Encoded(BitsOf(bm.pages, bm.peers, k, bm.bits), c.bitOffset, start, runs, stream, at)
    ensures Exhausted(BitsOf(bm.pages, bm.peers, k, bm.bits), size, stream, at)
  {
    hide BitAt, BsrBitmap.Valid, Encoded, Encode, Least;
    ghost var src := BitsOf(bm.pages, bm.peers, k, bm.bits);
    // toggle 2 tells the first round; then 0 seeks a clear bit, 1 a set bit
    var toggle := 2;
    start, stream, at, runs := false, [], c.bitOffset, [];
    while at < c.bits
      invariant bm.Valid() && bm.pages == old(bm.pages)
      invariant bm.needWriteout == old(bm.needWriteout) && bm.lazyWriteout == old(bm.lazyWriteout)
      invariant bm.bmSet == old(bm.bmSet)
      invariant 0 <= toggle <= 2 && |stream| <= 8 * size && c.bitOffset <= at <= c.bits
      invariant toggle == 2 ==> runs == [] && stream == [] && at == c.bitOffset
      invariant toggle != 2 ==> Encoded(src, c.bitOffset, start, runs, stream, at)
      invariant toggle != 2 && at < c.bits ==> src[at] == (toggle == 0)
      decreases c.bits - at, toggle
    {
      var next := FindRun(bm, k, at, toggle != 0);
      var rl := next - at;
      if toggle == 2 {
        if rl == 0 {
          // the first bit is set: remember that, and skip the empty run
          start, toggle := true, 0;
          EncodedNone(src, c.bitOffset, true);
          continue;
        }
        start := false;
        EncodedNone(src, c.bitOffset, false);
      }
      EncodedMore(src, c.bitOffset, start, runs, stream, at, next);
      var word := Encode(rl).word;
      if |stream| + |word| > 8 * size {
        break;
      }
      stream, runs := stream + word, runs + [rl];
      toggle := if toggle == 0 then 1 else 0;
      at := next;
    }
  }

  lemma PadIs(n: nat, size: nat)
    requires n <= 8 * size
    ensures (n + 7) / 8 <= size && (8 - n % 8) % 8 < 8 && n + (8 - n % 8) % 8 == (n + 7) / 8 * 8
    ensures (n + 7) / 8 == 0 ==> n == 0
  {
  }

  /** As many runs as fit have been encoded from the context's offset on. */
  ghost predicate Tried(src: seq<bool>, c: Ctx, size: nat, start: bool, runs: seq<nat>, stream: seq<bool>, at: nat) {
    Encoded(src, c.bitOffset, start, runs, stream, at) && Exhausted(src, size, stream, at)
  }

  /** The packet is compressed exactly when its bytes are no more than the plain bits it stands for. */
  ghost predicate Judged(src: seq<bool>, c: Ctx, size: nat, runs: seq<nat>, compressed: bool) {
    exists start: bool, stream: seq<bool>, at: nat ::
      && Tried(src, c, size, start, runs, stream, at)
      && (compressed <==> stream != [] && at - c.bitOffset >= (|stream| + 7) / 8 * 8)
  }

  /** `fill_bitmap_rle_bits`: a compressed packet, or nothing if plain bits would be shorter. */
  method Fill(bm: BsrBitmap, k: nat, size: nat, c: Ctx, useRle: bool)
    returns (len: nat, p: Packet, c': Ctx, ghost runs: seq<nat>)
    requires bm.Valid() && k < bm.peers && c.Ok() && c.bits == bm.bits
    modifies bm`pages, bm`needWriteout, bm`lazyWriteout, bm`bmSet
    ensures bm.Valid() && bm.pages == old(bm.pages)
    ensures bm.needWriteout == old(bm.needWriteout) && bm.lazyWriteout == old(bm.lazyWriteout)
    ensures bm.bmSet == old(bm.bmSet)
    ensures len <= size && (len > 0 ==> useRle && c.bitOffset < c.bits)
    ensures len == 0 ==> c'.Ok() && c'.bits == c.bits && c'.wordOffset == c.wordOffset
    ensures len > 0 ==>
              && CarriesRuns(BitsOf(bm.pages, bm.peers, k, bm.bits), c, p, runs)
              && |p.code| == 8 * len && Sum(runs) >= 8 * len
              && c' == c.AfterRuns(c.bitOffset + Sum(runs))
    ensures useRle && c.bitOffset < c.bits ==> Judged(BitsOf(bm.pages, bm.peers, k, bm.bits), c, size, runs, len > 0)
  {
    hide BitAt, BsrBitmap.Valid, Least, BitsOf, Encoded, Exhausted, CarriesRuns;
    p, runs := Plain([]), [];
    if !useRle || c.bitOffset >= c.bits {
      return 0, p, c, [];
    }
    var start, stream, at;
    start, stream, at, runs := EncodeRuns(bm, k, size, c);
    assert Tried(BitsOf(bm.pages, bm.peers, k, bm.bits), c, size, start, runs, stream, at);
    var plainBits := at - c.bitOffset;
    len := (|stream| + 7) / 8;
    PadIs(|stream|, size);
    if plainBits < 8 * len {
      // incompressible: back to the start of the packet, and to its 64-bit word
      var w := (at - plainBits) / 64;
      c' := Ctx(c.bits, c.words, 64 * w, w);
      len := 0;
      return;
    }
    c' := c.AfterRuns(at);
    var pad := (8 - |stream| % 8) % 8;
    p := Compressed(start, pad, stream + Zeros(pad));
    Packed(BitsOf(bm.pages, bm.peers, k, bm.bits), c, p, runs, stream, at);
  }

  lemma Packed(src: seq<bool>, c: Ctx, p: Packet, runs: seq<nat>, stream: seq<bool>, at: nat)
    requires p.Compressed? && Encoded(src, c.bitOffset, p.start, runs, stream, at) && p.padBits < 8
    requires p.code == stream + Zeros(p.padBits)
    ensures at == c.bitOffset + Sum(runs)
    ensures if stream == [] then runs == [] else CarriesRuns(src, c, p, runs)
  {
    hide RunsOf, Encode;
    assert p.code[..|p.code| - p.padBits] == stream;
    if stream == [] {
      EmptyStream(runs);
    }
  }

  lemma EmptyStream(runs: seq<nat>)
    requires Codable(runs) && Stream(runs) == []
    ensures runs == []
  {
  }

  /** The plain words show the bits from the context's word on, as far as the bitmap reaches. */
  ghost predicate CarriesPlain(src: seq<bool>, c: Ctx, p: Packet, header: nat) {
    && p.Plain? && c.wordOffset <= c.words && header <= BUFFER_SIZE && |p.plain| == 2 * c.PlainWords(header)
    && forall b :: 64 * c.wordOffset <= b < 64 * (c.wordOffset + c.PlainWords(header)) && b < |src| ==>
         ArgBit(p.plain, 64 * c.wordOffset, b) == src[b]
  }

  ghost predicate Carries(src: seq<bool>, c: Ctx, p: Packet, header: nat, runs: seq<nat>, c': Ctx) {
    if p.Compressed? then CarriesRuns(src, c, p, runs) && c' == c.AfterRuns(c.bitOffset + Sum(runs))
    else CarriesPlain(src, c, p, header) && c' == c.AfterPlain(c.PlainWords(header))
  }

  /** `bsr_bm_get_lel` into the packet. */
  method GetWords(bm: BsrBitmap, k: nat, c: Ctx, header: nat) returns (p: Packet)
    requires bm.Valid() && k < bm.peers && c.Ok() && c.bits == bm.bits && header <= BUFFER_SIZE
    modifies bm`pages, bm`needWriteout, bm`lazyWriteout, bm`bmSet
    ensures bm.Valid() && bm.pages == old(bm.pages)
    ensures bm.needWriteout == old(bm.needWriteout) && bm.lazyWriteout == old(bm.lazyWriteout)
    ensures bm.bmSet == old(bm.bmSet)
    ensures CarriesPlain(BitsOf(bm.pages, bm.peers, k, bm.bits), c, p, header)
  {
    hide BitAt, BitmapWeight.Weight, Applied, Result, Least;
    var n := c.PlainWords(header);
    if n == 0 {
      return Plain([]);
    }
    var from := 64 * c.wordOffset;
    var r, out := bm.Apply(Extract, k, from, from + 64 * n - 1, []);
    p := Plain(seq(2 * n, j requires 0 <= j => if j < |out| then out[j] else ZERO));
  }

  /** `send_bitmap_rle_or_plain`: one packet, and whether another one follows. */
  method SendPacket(bm: BsrBitmap, k: nat, c: Ctx, useRle: bool, header: nat)
    returns (p: Packet, c': Ctx, more: bool, ghost runs: seq<nat>)
    requires bm.Valid() && k < bm.peers && c.Ok() && c.bits == bm.bits && header + 9 <= BUFFER_SIZE
    modifies bm`pages, bm`needWriteout, bm`lazyWriteout, bm`bmSet
    ensures bm.Valid() && bm.pages == old(bm.pages)
    ensures bm.needWriteout == old(bm.needWriteout) && bm.lazyWriteout == old(bm.lazyWriteout)
    ensures bm.bmSet == old(bm.bmSet)
    ensures Carries(BitsOf(bm.pages, bm.peers, k, bm.bits), c, p, header, runs, c')
    ensures more == if p.Compressed? then c'.bitOffset < c.bits else |p.plain| > 0
    ensures FitsBuffer(p, header)
    ensures if useRle && c.bitOffset < c.bits
            then Judged(BitsOf(bm.pages, bm.peers, k, bm.bits), c, BUFFER_SIZE - header - 1, runs, p.Compressed?)
            else p.Plain?
  {
    hide BitAt, BsrBitmap.Valid, Least, BitsOf, CarriesRuns, CarriesPlain, Judged;
    var len;
    len, p, c', runs := Fill(bm, k, BUFFER_SIZE - header - 1, c, useRle);
    if len > 0 {
      RunsArePackets(BitsOf(bm.pages, bm.peers, k, bm.bits), c, p, runs);
      more := c'.bitOffset < c.bits;
    } else {
      p := GetWords(bm, k, c', header);
      var n := c'.PlainWords(header);
      PlainFromWord(BitsOf(bm.pages, bm.peers, k, bm.bits), c', c, p, header);
      c' := c'.AfterPlain(n);
      more := n > 0;
    }
  }

  lemma RunsArePackets(src: seq<bool>, c: Ctx, p: Packet, runs: seq<nat>)
    requires CarriesRuns(src, c, p, runs)
    ensures p.Compressed?
  {
  }

  /** Only the word offset matters for a plain packet. */
  lemma PlainFromWord(src: seq<bool>, c: Ctx, d: Ctx, p: Packet, header: nat)
    requires CarriesPlain(src, c, p, header) && c.words == d.words && c.wordOffset == d.wordOffset <= c.words
    requires header <= BUFFER_SIZE
    ensures CarriesPlain(src, d, p, header) && p.Plain? && |p.plain| == 2 * d.PlainWords(header)
  {
  }

  // ---- the receiver

  /** Peer `k` gained exactly the bits of `src` between `lo` and `hi`; no other peer changed. */
  ghost predicate Gained(p0: seq<Page>, p1: seq<Page>, peers: nat, k: nat, src: seq<bool>, lo: nat, hi: nat) {
    forall q: nat, b: nat ::
      BitAt(p1, peers, q, b) == (BitAt(p0, peers, q, b) || (q == k && lo <= b < hi && b < |src| && src[b]))
  }

  lemma GainedNothing(p: seq<Page>, peers: nat, k: nat, src: seq<bool>, lo: nat)
    ensures Gained(p, p, peers, k, src, lo, lo)
  {
  }

  /** A run of set bits, set. */
  lemma GainedRun(p0: seq<Page>, p1: seq<Page>, p2: seq<Page>, peers: nat, k: nat, src: seq<bool>, lo: nat, s: nat,
                  n: nat)
    requires Gained(p0, p1, peers, k, src, lo, s) && lo <= s && n > 0 && s + n <= |src|
    requires forall b :: s <= b < s + n ==> src[b]
    requires Applied(Set, p1, p2, peers, k, s, s + n - 1, [])
    ensures Gained(p0, p2, peers, k, src, lo, s + n)
  {
    hide BitAt, ArgBit;
  }

  /** A run of clear bits changes nothing. */
  lemma GainedGap(p0: seq<Page>, p1: seq<Page>, peers: nat, k: nat, src: seq<bool>, lo: nat, s: nat, n: nat)
    requires Gained(p0, p1, peers, k, src, lo, s) && s + n <= |src|
    requires forall b :: s <= b < s + n ==> !src[b]
    ensures Gained(p0, p1, peers, k, src, lo, s + n)
  {
    hide BitAt;
  }

  /** One decoded run: set bits are set, unless they reach past the end. */
  method TakeRun(bm: BsrBitmap, k: nat, s: nat, rl: nat, toggle: bool, ghost p0: seq<Page>, ghost src: seq<bool>,
                 ghost lo: nat)
    returns (ok: bool)
    requires bm.Valid() && k < bm.peers && rl > 0 && s < U64
    modifies bm`pages, bm`needWriteout, bm`lazyWriteout, bm`bmSet
    ensures bm.Valid()
    ensures ok <==> !toggle || Wrap(s + rl - 1) < bm.bits
    ensures !ok || !toggle ==> bm.pages == old(bm.pages)
    ensures |src| == bm.bits && lo <= s && s + rl <= bm.bits && (forall b :: s <= b < s + rl ==> src[b] == toggle)
            && Gained(p0, old(bm.pages), bm.peers, k, src, lo, s) ==>
              Gained(p0, bm.pages, bm.peers, k, src, lo, s + rl)
  {
    hide BitAt, BsrBitmap.Valid, Gained, Applied;
    ghost var p1 := bm.pages;
    ghost var good := |src| == bm.bits && lo <= s && s + rl <= bm.bits
                     && (forall b :: s <= b < s + rl ==> src[b] == toggle)
                      && Gained(p0, p1, bm.peers, k, src, lo, s);
    if toggle {
      var e := Wrap(s + rl - 1);
      if e >= bm.bits {
        return false;
      }
      BitsBounded(bm);
      bm.ManyBits(Set, k, s, e);
      if good {
        GainedRun(p0, p1, bm.pages, bm.peers, k, src, lo, s, rl);
      }
    } else if good {
      GainedGap(p0, p1, bm.peers, k, src, lo, s, rl);
    }
    ok := true;
  }

  /** `recv_bm_rle_bits`; the look-ahead holds up to 64 bits of the stream. */
  method ReceiveRuns(bm: BsrBitmap, k: nat, c: Ctx, p: Packet, ghost src: seq<bool>, ghost runs: seq<nat>)
    returns (r: int, c': Ctx)
    requires bm.Valid() && k < bm.peers && c.bits == bm.bits && c.bitOffset < U64
    requires p.Compressed? && p.padBits <= |p.code|
    modifies bm`pages, bm`needWriteout, bm`lazyWriteout, bm`bmSet
    ensures bm.Valid()
    ensures var code := p.code[..|p.code| - p.padBits];
      if Broken(code, c.bitOffset, p.start, bm.bits) then r == -EIO && c' == c
      else
        && c' == c.AfterRuns(Wrap(c.bitOffset + Sum(Lengths(code).value)))
        && r == if c'.bitOffset != c.bits then 1 else 0
    ensures CarriesRuns(src, c, p, runs) && |src| == c.bits < Least(LEVELS) ==>
              && r == (if c'.bitOffset != c.bits then 1 else 0) && c' == c.AfterRuns(c.bitOffset + Sum(runs))
              && Gained(old(bm.pages), bm.pages, bm.peers, k, src, c.bitOffset, c'.bitOffset)
  {
    hide BitAt, BsrBitmap.Valid, Least, Encode, Decode, Gained, Applied, Remaining, Lengths, Halfway, Broken, Wrap, Sum,
      Zeros;
    ghost var good := CarriesRuns(src, c, p, runs) && |src| == c.bits < Least(LEVELS);
    ghost var i, done := 0, [];
    BitsBounded(bm);
    var bits := p.code[..|p.code| - p.padBits];
    var have := if |bits| < 64 then |bits| else 64;
    var ahead, rest := bits[..have], bits[have..];
    var s: nat, toggle := c.bitOffset, p.start;
    c' := c;
    GainedNothing(bm.pages, bm.peers, k, src, s);
    assert ahead + rest == bits;
    HalfwayStart(bits, c.bitOffset, p.start, bm.bits);
    if good {
      AllRemain(src, c, p, runs);
    }
    while ahead != []
      invariant bm.Valid() && |ahead| <= 64 && (rest != [] ==> |ahead| == 64)
      invariant s < U64 && Halfway(bits, c.bitOffset, p.start, bm.bits, done, ahead + rest, s, toggle)
      invariant good ==> Remaining(src, s, toggle, runs, i, ahead + rest)
      invariant good ==> i <= |runs| && c.bitOffset <= s && s + Sum(runs[i..]) == c.bitOffset + Sum(runs)
      invariant good ==> Gained(old(bm.pages), bm.pages, bm.peers, k, src, c.bitOffset, s)
      decreases |ahead| + |rest|
    {
      var (rl, n) := Decode(ahead + Zeros(64 - |ahead|));
      DecodeTotal(ahead + Zeros(64 - |ahead|));
      HalfwayMore(bits, c.bitOffset, p.start, bm.bits, done, ahead, rest, s, toggle);
      if good {
        NextRun(src, s, toggle, runs, i, ahead, rest);
        WrapSmall(s + rl);
        WrapSmall(s + rl - 1);
      }
      var ok := TakeRun(bm, k, s, rl, toggle, old(bm.pages), src, c.bitOffset);
      if !ok {
        return -EIO, c;
      }
      if |ahead| < n {
        return -EIO, c;
      }
      done := done + [rl];
      ghost var left := ahead[n..] + rest;
      ahead := ahead[n..];
      have := if |rest| < 64 - |ahead| then |rest| else 64 - |ahead|;
      ahead, rest := ahead + rest[..have], rest[have..];
      assert ahead + rest == left;
      s, toggle := Wrap(s + rl), !toggle;
      i := i + 1;
    }
    assert ahead + rest == [];
    HalfwayEnd(bits, c.bitOffset, p.start, bm.bits, done, s, toggle);
    if good {
      NoRunLeft(src, s, toggle, runs, i);
    }
    c' := c.AfterRuns(s);
    r := if s != c.bits then 1 else 0;
  }

  /** The undecoded part of the stream is that of the runs from the `i`-th on. */
  ghost predicate Remaining(src: seq<bool>, s: nat, toggle: bool, runs: seq<nat>, i: nat, stream: seq<bool>) {
    && i <= |runs| && RunsOf(src, s, toggle, runs[i..]) && Codable(runs[i..]) && stream == Stream(runs[i..])
  }

  lemma AllRemain(src: seq<bool>, c: Ctx, p: Packet, runs: seq<nat>)
    requires CarriesRuns(src, c, p, runs)
    ensures Remaining(src, c.bitOffset, p.start, runs, 0, p.code[..|p.code| - p.padBits]) && runs[0..] == runs
  {
  }

  lemma NextRun(src: seq<bool>, s: nat, toggle: bool, runs: seq<nat>, i: nat, ahead: seq<bool>, rest: seq<bool>)
    requires Remaining(src, s, toggle, runs, i, ahead + rest) && |src| < Least(LEVELS)
    requires ahead != [] && |ahead| <= 64 && (rest != [] ==> |ahead| == 64)
    ensures i < |runs|
    ensures var (rl, n) := Decode(ahead + Zeros(64 - |ahead|));
      && rl == runs[i] > 0 && n <= |ahead| && s + rl <= |src| && (forall b :: s <= b < s + rl ==> src[b] == toggle)
      && Remaining(src, s + rl, !toggle, runs, i + 1, ahead[n..] + rest)
      && Sum(runs[i..]) == rl + Sum(runs[i + 1..])
  {
    hide Least, Encode, Decode;
    if i < |runs| {
      assert runs[i..][1..] == runs[i + 1..];
      DecodeNext(runs[i..], ahead, rest);
    }
  }

  lemma NoRunLeft(src: seq<bool>, s: nat, toggle: bool, runs: seq<nat>, i: nat)
    requires Remaining(src, s, toggle, runs, i, [])
    ensures i == |runs| && Sum(runs[i..]) == 0
  {
    EmptyStream(runs[i..]);
  }

  lemma GainedPlain(p1: seq<Page>, p2: seq<Page>, peers: nat, k: nat, src: seq<bool>, c: Ctx, p: Packet, header: nat)
    requires CarriesPlain(src, c, p, header) && |src| == c.bits && c.PlainWords(header) > 0
    requires Applied(Merge, p1, p2, peers, k, 64 * c.wordOffset,
                     Clip(c.bits, 64 * c.wordOffset + 64 * c.PlainWords(header) - 1), p.plain)
    ensures Gained(p1, p2, peers, k, src, 64 * c.wordOffset, c.AfterPlain(c.PlainWords(header)).bitOffset)
  {
    hide BitAt, ArgBit, Ctx.PlainWords;
  }

  /** `receive_bitmap_plain` */
  method ReceivePlain(bm: BsrBitmap, k: nat, c: Ctx, p: Packet, header: nat, ghost src: seq<bool>)
    returns (r: int, c': Ctx)
    requires bm.Valid() && k < bm.peers && c.bits == bm.bits && c.wordOffset <= c.words && header <= BUFFER_SIZE
    requires p.Plain?
    modifies bm`pages, bm`needWriteout, bm`lazyWriteout, bm`bmSet
    ensures bm.Valid()
    ensures r == if |p.plain| != 2 * c.PlainWords(header) then -EIO else if |p.plain| == 0 then 0 else 1
    ensures if r == 1 then c' == c.AfterPlain(c.PlainWords(header)) else c' == c && bm.pages == old(bm.pages)
    ensures CarriesPlain(src, c, p, header) && |src| == c.bits ==>
              && r == (if |p.plain| > 0 then 1 else 0)
              && Gained(old(bm.pages), bm.pages, bm.peers, k, src, 64 * c.wordOffset,
                        if |p.plain| == 0 then 64 * c.wordOffset else c'.bitOffset)
  {
    hide BitAt, BsrBitmap.Valid, Gained, Applied, Result, Flagged, OutWords, CarriesPlain, FirstFound, Ctx.PlainWords,
      Ctx.AfterPlain;
    if CarriesPlain(src, c, p, header) {
      PlainSize(src, c, p, header);
    }
    var n := c.PlainWords(header);
    if |p.plain| != 2 * n {
      return -EIO, c;
    }
    if n == 0 {
      GainedNothing(bm.pages, bm.peers, k, src, 64 * c.wordOffset);
      return 0, c;
    }
    var from := 64 * c.wordOffset;
    var count, out := bm.Apply(Merge, k, from, from + 64 * n - 1, p.plain);
    if CarriesPlain(src, c, p, header) && |src| == c.bits {
      GainedPlain(old(bm.pages), bm.pages, bm.peers, k, src, c, p, header);
    }
    return 1, c.AfterPlain(n);
  }

  // ---- end to end

  /** What is left to transfer; every packet but the last one makes it smaller. */
  function Left(c: Ctx): int {
    c.bits - c.bitOffset + c.words - c.wordOffset
  }

  lemma PlainSteps(c: Ctx, header: nat)
    requires c.Ok() && header + 9 <= BUFFER_SIZE
    ensures var n := c.PlainWords(header); var c' := c.AfterPlain(n);
      && c'.Ok() && c.bitOffset <= c'.bitOffset
      && (n > 0 ==> Left(c') < Left(c))
      && (n == 0 ==> c'.bitOffset == c.bitOffset == c.bits)
      && (64 * c.wordOffset <= c.bitOffset || c.bitOffset == c.bits)
  {
    hide Least;
  }

  lemma RunSteps(src: seq<bool>, c: Ctx, p: Packet, runs: seq<nat>)
    requires c.Ok() && |src| == c.bits && CarriesRuns(src, c, p, runs)
    ensures var c' := c.AfterRuns(c.bitOffset + Sum(runs));
      c'.Ok() && c.bitOffset < c'.bitOffset && Left(c') < Left(c)
  {
    hide Least, Encode;
    RunsCodable(src, c.bitOffset, p.start, runs);
    assert Sum(runs) >= runs[0] > 0;
  }

  lemma GainedTogether(p0: seq<Page>, p1: seq<Page>, p2: seq<Page>, peers: nat, k: nat, src: seq<bool>, at: nat,
                       lo: nat, hi: nat)
    requires Gained(p0, p1, peers, k, src, 0, at) && Gained(p1, p2, peers, k, src, lo, hi)
    requires at <= hi && (lo <= at || at >= |src|)
    ensures Gained(p0, p2, peers, k, src, 0, hi)
  {
    hide BitAt;
  }

  /** One packet at the receiver, by its kind (`receive_bitmap`). */
  method ReceivePacket(bm: BsrBitmap, k: nat, c: Ctx, p: Packet, header: nat, ghost src: seq<bool>,
                       ghost runs: seq<nat>, ghost p0: seq<Page>, ghost next: Ctx)
    returns (r: int, c': Ctx)
    requires bm.Valid() && k < bm.peers && c.Ok() && c.bits == bm.bits == |src| && header + 9 <= BUFFER_SIZE
    requires Carries(src, c, p, header, runs, next) && Gained(p0, bm.pages, bm.peers, k, src, 0, c.bitOffset)
    modifies bm`pages, bm`needWriteout, bm`lazyWriteout, bm`bmSet
    ensures bm.Valid() && c' == next && c'.Ok() && c'.bits == c.bits
    ensures r == (if p.Compressed? then if c'.bitOffset < c.bits then 1 else 0 else if |p.plain| > 0 then 1 else 0)
    ensures Gained(p0, bm.pages, bm.peers, k, src, 0, c'.bitOffset)
    ensures r > 0 ==> Left(c') < Left(c)
    ensures r == 0 ==> c'.bitOffset == c.bits
  {
    hide BitAt, BsrBitmap.Valid, Gained, CarriesRuns, CarriesPlain, Least, Sum, Ctx.PlainWords, Broken, Wrap, Lengths;
    ghost var p1 := bm.pages;
    if p.Compressed? {
      PadFits(src, c, p, runs);
      RunSteps(src, c, p, runs);
      r, c' := ReceiveRuns(bm, k, c, p, src, runs);
      GainedTogether(p0, p1, bm.pages, bm.peers, k, src, c.bitOffset, c.bitOffset, c'.bitOffset);
    } else {
      PlainSteps(c, header);
      PlainSize(src, c, p, header);
      r, c' := ReceivePlain(bm, k, c, p, header, src);
      if |p.plain| == 0 {
        GainedSame(p0, p1, bm.pages, bm.peers, k, src, c.bitOffset, 64 * c.wordOffset);
      } else {
        GainedTogether(p0, p1, bm.pages, bm.peers, k, src, c.bitOffset, 64 * c.wordOffset, c'.bitOffset);
      }
    }
  }

  lemma PadFits(src: seq<bool>, c: Ctx, p: Packet, runs: seq<nat>)
    requires CarriesRuns(src, c, p, runs)
    ensures p.Compressed? && p.padBits <= |p.code|
  {
  }

  lemma PlainSize(src: seq<bool>, c: Ctx, p: Packet, header: nat)
    requires CarriesPlain(src, c, p, header)
    ensures c.wordOffset <= c.words && header <= BUFFER_SIZE && |p.plain| == 2 * c.PlainWords(header)
  {
  }

  lemma GainedSame(p0: seq<Page>, p1: seq<Page>, p2: seq<Page>, peers: nat, k: nat, src: seq<bool>, at: nat, lo: nat)
    requires Gained(p0, p1, peers, k, src, 0, at) && Gained(p1, p2, peers, k, src, lo, lo)
    ensures Gained(p0, p2, peers, k, src, 0, at)
  {
    hide BitAt;
  }

  /** Every device up to BSR_MAX_SECTORS_FLEX, 1 EiB, has a bitmap that can be sent. */
  lemma EveryDeviceFits(capacity: nat)
    requires capacity <= MAX_SECTORS_FLEX
    ensures BitmapWeight.BitsFor(capacity) < Least(LEVELS)
    ensures BitmapWeight.BitsFor(capacity) + RANGE_FIND_NEXT_BIT < END_OF_BITMAP
  {
    hide Least;
    Largest();
  }

  /** `_bsr_send_bitmap` and the receiver, packet by packet (run lengths may be switched on
      or off between packets): the receiver's bits become the union of both, nothing else
      changes on either side, both ends see the same last packet, and there is a last packet. */
  method Transfer(sender: BsrBitmap, k: nat, receiver: BsrBitmap, j: nat, useRle: nat -> bool, header: nat)
    returns (packets: seq<Packet>)
    requires sender != receiver && sender.Valid() && receiver.Valid() && k < sender.peers && j < receiver.peers
    requires sender.bits == receiver.bits < Least(LEVELS) && sender.bits + RANGE_FIND_NEXT_BIT < END_OF_BITMAP
    requires header + 9 <= BUFFER_SIZE
    modifies sender`pages, sender`needWriteout, sender`lazyWriteout, sender`bmSet
    modifies receiver`pages, receiver`needWriteout, receiver`lazyWriteout, receiver`bmSet
    ensures sender.Valid() && sender.pages == old(sender.pages)
    ensures receiver.Valid()
    ensures packets != [] && forall i :: 0 <= i < |packets| ==> FitsBuffer(packets[i], header)
    ensures forall q: nat, b: nat ::
              BitAt(receiver.pages, receiver.peers, q, b)
              == (BitAt(old(receiver.pages), receiver.peers, q, b)
                  || (q == j && b < sender.bits && BitAt(sender.pages, sender.peers, k, b)))
  {
    hide BitAt, BsrBitmap.Valid, Gained, Carries, Least, BitsOf, Judged;
    var bits := sender.bits;
    ghost var src := BitsOf(sender.pages, sender.peers, k, bits);
    var c := Ctx(bits, (bits + 63) / 64 * 2, 0, 0);
    var d := c;
    var more, r := true, 1;
    packets := [];
    GainedNothing(receiver.pages, receiver.peers, j, src, 0);
    while more
      invariant sender.Valid() && sender.pages == old(sender.pages) && receiver.Valid()
      invariant c.Ok() && c.bits == bits && d == c && (more <==> r > 0)
      invariant Gained(old(receiver.pages), receiver.pages, receiver.peers, j, src, 0, c.bitOffset)
      invariant !more ==> c.bitOffset == bits && packets != []
      invariant forall i :: 0 <= i < |packets| ==> FitsBuffer(packets[i], header)
      decreases more, Left(c)
    {
      var p, c';
      ghost var runs;
      p, c', more, runs := SendPacket(sender, k, c, useRle(|packets|), header);
      packets := packets + [p];
      r, d := ReceivePacket(receiver, j, d, p, header, src, runs, old(receiver.pages), c');
      c := c';
    }
    AllGained(old(receiver.pages), receiver.pages, receiver.peers, j, sender.pages, sender.peers, k, bits);
  }

  lemma AllGained(p0: seq<Page>, p1: seq<Page>, peers: nat, j: nat, from: seq<Page>, fromPeers: nat, k: nat, bits: nat)
    requires Gained(p0, p1, peers, j, BitsOf(from, fromPeers, k, bits), 0, bits)
    ensures forall q: nat, b: nat ::
              BitAt(p1, peers, q, b) == (BitAt(p0, peers, q, b) || (q == j && b < bits && BitAt(from, fromPeers, k, b)))
  {
    hide BitAt;
  }
}

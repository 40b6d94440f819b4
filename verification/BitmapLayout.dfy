/** Where bit `b` of peer `k` lives: peers' 32-bit words are interleaved over 4 KiB pages. */
module BitmapLayout {

  const MAX_PEERS := 32
  const PAGE_WORDS := 1024
  const PAGE_BITS := 32768

  /** `interleaved_word32` */
  function WordIndex(peers: nat, k: nat, bit: nat): nat {
    (bit / 32) * peers + k
  }

  function PageOf(peers: nat, k: nat, bit: nat): nat {
    WordIndex(peers, k, bit) / PAGE_WORDS
  }

  /** `bit | 31` */
  function WordEnd(bit: nat): nat {
    bit / 32 * 32 + 31
  }

  /** `last_bit_on_page`: `~word` masked to ten bits is `1023 - word % 1024`. */
  function LastBitOnPage(peers: nat, k: nat, bit: nat): nat
    requires peers > 0
  {
    WordEnd(bit) + (PAGE_WORDS - 1 - WordIndex(peers, k, bit) % PAGE_WORDS) / peers * 32
  }

  lemma WordIndexStep(peers: nat, k: nat, bit: nat, n: nat)
    ensures WordIndex(peers, k, bit + 32 * n) == WordIndex(peers, k, bit) + n * peers
  {
    assert (bit + 32 * n) / 32 == bit / 32 + n;
  }

  lemma SameWordIndex(peers: nat, k: nat, a: nat, b: nat)
    requires a / 32 == b / 32
    ensures WordIndex(peers, k, a) == WordIndex(peers, k, b)
  {
  }

  lemma WordIndexMonotone(peers: nat, k: nat, a: nat, b: nat)
    requires a <= b
    ensures WordIndex(peers, k, a) <= WordIndex(peers, k, b)
  {
    if a / 32 < b / 32 {
      MulGap(a / 32, b / 32, peers);
    }
  }

  /** Different peers, or different words of one peer, never share a word. */
  lemma WordIndexInjective(peers: nat, k: nat, a: nat, q: nat, b: nat)
    requires k < peers && q < peers
    requires WordIndex(peers, k, a) == WordIndex(peers, q, b)
    ensures k == q && a / 32 == b / 32
  {
    if a / 32 < b / 32 {
      MulGap(a / 32, b / 32, peers);
    } else if b / 32 < a / 32 {
      MulGap(b / 32, a / 32, peers);
    }
  }

  lemma MulGap(x: nat, y: nat, p: nat)
    requires x < y
    ensures x * p + p <= y * p
  {
    if x + 1 < y {
      MulGap(x, y - 1, p);
    }
    assert y * p == (y - 1) * p + p;
  }

  lemma DivBounds(x: nat, d: nat)
    requires d > 0
    ensures x / d * d <= x < x / d * d + d
  {
  }

  /** Word indices `n` words further on: of a word's last bit, and of the bit after it. */
  lemma WordIndexAfter(peers: nat, k: nat, bit: nat, n: nat)
    ensures WordIndex(peers, k, WordEnd(bit) + 32 * n) == WordIndex(peers, k, bit) + n * peers
    ensures WordIndex(peers, k, WordEnd(bit) + 32 * n + 1) == WordIndex(peers, k, bit) + n * peers + peers
  {
    hide WordIndex;
    WordIndexStep(peers, k, WordEnd(bit), n);
    WordIndexStep(peers, k, bit / 32 * 32 + 32, n);
    WordIndexStep(peers, k, bit / 32 * 32, 1);
    SameWordIndex(peers, k, bit, WordEnd(bit));
    SameWordIndex(peers, k, bit, bit / 32 * 32);
  }

  /** `last_bit_on_page` is the greatest bit of peer `k` on the page of `bit`. */
  lemma LastBitOnPageIsGreatest(peers: nat, k: nat, bit: nat, other: nat)
    requires k < peers <= MAX_PEERS
    ensures var last := LastBitOnPage(peers, k, bit);
      && last >= bit
      && PageOf(peers, k, last) == PageOf(peers, k, bit)
      && PageOf(peers, k, last + 1) == PageOf(peers, k, bit) + 1
      && (PageOf(peers, k, other) == PageOf(peers, k, bit) ==> other <= last)
  {
    hide WordIndex;
    var room := PAGE_WORDS - 1 - WordIndex(peers, k, bit) % PAGE_WORDS;
    var last := LastBitOnPage(peers, k, bit);
    WordIndexAfter(peers, k, bit, room / peers);
    DivBounds(room, peers);
    if other > last {
      WordIndexMonotone(peers, k, last + 1, other);
    }
  }

  /** Bits of one activity-log extent: 4 MiB of storage, 1024 blocks of 4 KiB. */
  const AL_EXTENT_BITS := 1024

  /** Word range of an activity-log extent, over all peers: at most one page's worth of words. */
  lemma ExtentWords(peers: nat, enr: nat)
    requires 1 <= peers <= MAX_PEERS
    ensures var first := WordIndex(peers, 0, enr * AL_EXTENT_BITS);
      var last := WordIndex(peers, peers - 1, (enr + 1) * AL_EXTENT_BITS - 1);
      first <= last && last == first + 32 * peers - 1 && last < first + PAGE_WORDS
  {
    assert enr * AL_EXTENT_BITS / 32 == enr * 32;
    assert ((enr + 1) * AL_EXTENT_BITS - 1) / 32 == enr * 32 + 31;
    assert (enr * 32 + 31) * peers == enr * 32 * peers + 31 * peers;
  }

  /** One activity-log extent lies on one page or on two adjacent ones. */
  lemma ExtentOnTwoPages(peers: nat, enr: nat)
    requires 1 <= peers <= MAX_PEERS
    ensures var first := PageOf(peers, 0, enr * AL_EXTENT_BITS);
      var last := PageOf(peers, peers - 1, (enr + 1) * AL_EXTENT_BITS - 1);
      first <= last <= first + 1
  {
    ExtentWords(peers, enr);
  }

  /** Every bit of every peer between two bits lies between their outermost pages. */
  lemma PageBetween(peers: nat, q: nat, lo: nat, b: nat, hi: nat)
    requires q < peers && lo <= b <= hi
    ensures PageOf(peers, 0, lo) <= PageOf(peers, q, b) <= PageOf(peers, peers - 1, hi)
  {
    WordIndexMonotone(peers, 0, lo, b);
    WordIndexMonotone(peers, q, b, hi);
  }

  /** The pages `bsr_bm_mark_range_for_writeout` marks for extent `enr` of a bitmap of `bits` bits. */
  predicate MarksPage(peers: nat, bits: nat, enr: nat, page: nat)
  {
    && peers > 0 && bits > 0
    && var end := (enr + 1) * AL_EXTENT_BITS - 1;
       PageOf(peers, 0, enr * AL_EXTENT_BITS) <= page <= PageOf(peers, peers - 1, if end >= bits then bits - 1 else end)
  }

  /** Every bit of the extent, of any peer, is on a marked page. */
  lemma ExtentIsMarked(peers: nat, bits: nat, q: nat, b: nat)
    requires q < peers && b < bits
    ensures MarksPage(peers, bits, b / AL_EXTENT_BITS, PageOf(peers, q, b))
  {
    hide PageOf;
    var enr := b / AL_EXTENT_BITS;
    var end := (enr + 1) * AL_EXTENT_BITS - 1;
    PageBetween(peers, q, enr * AL_EXTENT_BITS, b, if end >= bits then bits - 1 else end);
  }
}

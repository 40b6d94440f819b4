/** How a scan that walks words and pages relates to the plain, bit-by-bit operation. */
module BitmapScan {
  import opened Words
  import opened BitmapLayout
  import opened BitmapStore
  import opened BitmapOps

  const END_OF_BITMAP: nat := 0xFFFF_FFFF_FFFF_FFFF

  /** `p1` is `p0` with `op` applied to the bits `s..e` of peer `k`, and to nothing else. */
  ghost predicate Applied(op: Op, p0: seq<Page>, p1: seq<Page>, peers: nat, k: nat, s: nat, e: int, buffer: seq<Word>) {
    && |p1| == |p0|
    && forall q: nat, b: nat :: BitAt(p1, peers, q, b)
         == if q == k && s <= b <= e then BitOp(op, BitAt(p0, peers, k, b), ArgBit(buffer, s, b))
            else BitAt(p0, peers, q, b)
  }

  /** `flags'` is `flags` plus exactly the pages whose content differs between `p0` and `p1`. */
  ghost predicate Flagged(flags: set<nat>, flags': set<nat>, p0: seq<Page>, p1: seq<Page>)
    requires |p0| == |p1|
  {
    flags' == flags + set p: nat | p < |p0| && p0[p] != p1[p]
  }

  /** `find_next_bit_le` / `find_next_zero_bit_le` on the bits of one page. */
  function NextInPage(page: Page, size: nat, offset: nat, val: bool): (r: nat)
    requires offset <= size <= PAGE_BITS
    ensures offset <= r <= size
    ensures r < size ==> page[r / 32][r % 32] == val
    ensures forall i :: offset <= i < r ==> page[i / 32][i % 32] != val
    decreases size - offset
  {
    if offset == size || page[offset / 32][offset % 32] == val then offset
    else NextInPage(page, size, offset + 1, val)
  }

  /** Stores word `w` of page `page`. */
  function PutWord(pages: seq<Page>, page: nat, w: nat, x: Word): seq<Page>
    requires page < |pages| && w < PAGE_WORDS
  {
    pages[page := pages[page][w := x]]
  }

  lemma PutSame(pages: seq<Page>, page: nat, w: nat)
    requires page < |pages| && w < PAGE_WORDS
    ensures PutWord(pages, page, w, pages[page][w]) == pages
  {
    assert pages[page][w := pages[page][w]] == pages[page];
  }

  lemma PutTwice(pages: seq<Page>, page: nat, w: nat, x: Word, y: Word)
    requires page < |pages| && w < PAGE_WORDS
    ensures PutWord(PutWord(pages, page, w, x), page, w, y) == PutWord(pages, page, w, y)
  {
    assert pages[page][w := x][w := y] == pages[page][w := y];
  }

  lemma ReadOnly(op: Op, pages: seq<Page>, page: nat, w: nat, lo: nat, n: nat, arg: Word)
    requires page < |pages| && w < PAGE_WORDS && lo + n <= 32 && !op.Writes()
    ensures PutWord(pages, page, w, OpWord(op, pages[page][w], lo, n, arg)) == pages
  {
    assert OpWord(op, pages[page][w], lo, n, arg) == pages[page][w];
    PutSame(pages, page, w);
  }

  /** Page and bit-in-page address bit `s` of peer `k`. */
  predicate Addresses(peers: nat, k: nat, s: nat, page: nat, bitInPage: nat) {
    && bitInPage < PAGE_BITS
    && page * PAGE_WORDS + bitInPage / 32 == WordIndex(peers, k, s)
    && bitInPage % 32 == s % 32
  }

  lemma AddressesWord(pages: seq<Page>, peers: nat, k: nat, s: nat, page: nat, bitInPage: nat)
    requires Addresses(peers, k, s, page, bitInPage) && Holds(pages, peers, k, s)
    ensures page < |pages|
    ensures page == PageOf(peers, k, s)
    ensures ReadWord(pages, WordIndex(peers, k, s)) == pages[page][bitInPage / 32]
    ensures forall x: Word :: WriteWord(pages, WordIndex(peers, k, s), x) == PutWord(pages, page, bitInPage / 32, x)
  {
  }

  /** Stepping to the next word of the peer, within the page or onto the next one. */
  lemma AddressesNext(peers: nat, k: nat, s: nat, page: nat, bitInPage: nat)
    requires Addresses(peers, k, s, page, bitInPage) && 1 <= peers <= MAX_PEERS
    ensures var s', b' := s / 32 * 32 + 32, bitInPage / 32 * 32 + 32 * peers;
      if b' < PAGE_BITS then Addresses(peers, k, s', page, b') else Addresses(peers, k, s', page + 1, b' - PAGE_BITS)
  {
    hide WordIndex;
    WordIndexStep(peers, k, s / 32 * 32, 1);
    SameWordIndex(peers, k, s, s / 32 * 32);
  }

  predicate Aligned(s: nat) {
    s % 32 == 0
  }

  /** `n` bits from `s` share a word, and complete it or the range. */
  predicate Fits(s: nat, n: nat, end: nat) {
    && n >= 1 && s % 32 + n <= 32 && s + n <= end + 1
    && (s % 32 + n == 32 || s + n == end + 1)
  }

  lemma FitsHere(s: nat, end: nat)
    requires s <= end
    ensures WordEnd(s) >= s && (WordEnd(s) <= end ==> Fits(s, WordEnd(s) + 1 - s, end))
    ensures Aligned(WordEnd(s) + 1)
    ensures s + 31 <= end && (Aligned(s) || WordEnd(s) > end) ==> Fits(s, 32, end) && (Aligned(s) ==> Aligned(s + 32))
    ensures s + 31 > end && (Aligned(s) || WordEnd(s) > end) ==> Fits(s, end + 1 - s, end)
    ensures s + 31 <= end ==> WordEnd(s) <= end
  {
  }

  /** Pages marked once `count` more changes on `page` are accounted for. */
  function Mark(op: Op, dirty: set<nat>, page: nat, count: nat): set<nat> {
    if count > 0 && op.Writes() then dirty + {page} else dirty
  }

  lemma MarkTwice(op: Op, dirty: set<nat>, page: nat, count: nat, c: nat)
    ensures Mark(op, Mark(op, dirty, page, count), page, c) == Mark(op, dirty, page, count + c)
    ensures !op.Writes() ==> Mark(op, dirty, page, count + c) == Mark(op, dirty, page, count) == dirty
  {
  }

  /** What is left to do from bit `s` on leads to the same result as the whole operation on `p0`. */
  ghost predicate Progress(op: Op, acc: Acc, peers: nat, k: nat, s: nat, e: nat, buffer: seq<Word>,
                           base: nat, p0: seq<Page>) {
    && base <= s <= e + 1 && base <= e
    && |acc.pages| == |p0| && Holds(p0, peers, k, e)
    && if op.IsFind() then
         && acc == Acc(p0, {}, 0)
         && FindFrom(p0, peers, k, s, e, op.Seeks()) == FindFrom(p0, peers, k, base, e, op.Seeks())
       else
         Run(op, acc, peers, k, s, e, buffer, base) == Run(op, Acc(p0, {}, 0), peers, k, base, e, buffer, base)
  }

  /** An operand word that is right where the operation reads it. */
  predicate ArgOk(op: Op, arg: Word, buffer: seq<Word>, base: nat, s: nat, n: nat)
    requires s % 32 + n <= 32
  {
    op.Merge? ==> forall i :: s % 32 <= i < s % 32 + n ==> arg[i] == ArgWord(buffer, base, s)[i]
  }

  lemma ArgIrrelevant(op: Op, word: Word, lo: nat, n: nat, arg: Word, arg': Word)
    requires lo + n <= 32
    requires op.Merge? ==> forall i :: lo <= i < lo + n ==> arg[i] == arg'[i]
    ensures OpWord(op, word, lo, n, arg) == OpWord(op, word, lo, n, arg')
    ensures Counted(op, word, lo, n, arg) == Counted(op, word, lo, n, arg')
  {
  }

  /** Doing `n` bits of one word in place is progress. */
  lemma SegmentProgress(op: Op, pages: seq<Page>, dirty: set<nat>, total: nat, peers: nat, k: nat, s: nat, n: nat,
                        e: nat, buffer: seq<Word>, base: nat, p0: seq<Page>, page: nat, bitInPage: nat, arg: Word)
    requires !op.IsFind() && n >= 1 && s % 32 + n <= 32 && s + n <= e + 1
    requires Progress(op, Acc(pages, dirty, total), peers, k, s, e, buffer, base, p0)
    requires Addresses(peers, k, s, page, bitInPage) && page < |pages|
    requires ArgOk(op, arg, buffer, base, s, n)
    ensures var word := pages[page][bitInPage / 32];
      var c := Weight(Counted(op, word, s % 32, n, arg));
      Progress(op, Acc(PutWord(pages, page, bitInPage / 32, OpWord(op, word, s % 32, n, arg)),
                       Mark(op, dirty, page, c), total + c),
               peers, k, s + n, e, buffer, base, p0)
  {
    hide Run, ArgWord, WordIndex, ReadWord, WriteWord, PutWord, OpWord, Counted, Weight;
    var acc := Acc(pages, dirty, total);
    SameHolds(p0, pages, peers, k, e);
    RunWordStep(op, acc, peers, k, s, n, e, buffer, base);
    AddressesWord(pages, peers, k, s, page, bitInPage);
    ArgIrrelevant(op, pages[page][bitInPage / 32], s % 32, n, arg, ArgWord(buffer, base, s));
  }

  /** Within one word, a page search and a search in the peer's bits agree. */
  lemma FindSegment(pages: seq<Page>, peers: nat, k: nat, s: nat, n: nat, page: nat, bitInPage: nat, i: nat)
    requires Addresses(peers, k, s, page, bitInPage) && Holds(pages, peers, k, s)
    requires i < n && s % 32 + n <= 32
    ensures page < |pages|
    ensures BitAt(pages, peers, k, s + i) == pages[page][(bitInPage + i) / 32][(bitInPage + i) % 32]
  {
    hide WordIndex;
    AddressesWord(pages, peers, k, s, page, bitInPage);
    SameWord(peers, k, s, i);
    SameWord(peers, k, bitInPage, i);
  }

  lemma {:induction false} FindSkip(pages: seq<Page>, peers: nat, k: nat, s: nat, s': nat, e: nat, val: bool)
    requires s <= s' <= e + 1
    requires forall b :: s <= b < s' ==> BitAt(pages, peers, k, b) != val
    ensures FindFrom(pages, peers, k, s, e, val) == FindFrom(pages, peers, k, s', e, val)
    decreases s' - s
  {
    if s < s' {
      FindSkip(pages, peers, k, s + 1, s', e, val);
    }
  }

  /** Searching `n` bits of one word either finds the first match or is progress. */
  lemma FindProgress(op: Op, p0: seq<Page>, peers: nat, k: nat, s: nat, n: nat, e: nat, buffer: seq<Word>, base: nat,
                     page: nat, bitInPage: nat)
    requires op.IsFind() && n >= 1 && s % 32 + n <= 32 && s + n <= e + 1
    requires Progress(op, Acc(p0, {}, 0), peers, k, s, e, buffer, base, p0)
    requires Addresses(peers, k, s, page, bitInPage) && page < |p0|
    ensures bitInPage + n <= PAGE_BITS
    ensures var pos := NextInPage(p0[page], bitInPage + n, bitInPage, op.Seeks());
      if pos < bitInPage + n then
        FindFrom(p0, peers, k, base, e, op.Seeks()) == s + pos - bitInPage
      else
        Progress(op, Acc(p0, {}, 0), peers, k, s + n, e, buffer, base, p0)
  {
    hide Run, WordIndex, BitAt, FindFrom, NextInPage;
    HoldsBelow(p0, peers, k, s, e);
    var pos := NextInPage(p0[page], bitInPage + n, bitInPage, op.Seeks());
    var s' := s + (pos - bitInPage);
    forall b | s <= b < s' ensures BitAt(p0, peers, k, b) != op.Seeks() {
      FindSegment(p0, peers, k, s, n, page, bitInPage, b - s);
      assert bitInPage <= bitInPage + (b - s) < pos;
    }
    FindSkip(p0, peers, k, s, s', e, op.Seeks());
    if pos < bitInPage + n {
      FindSegment(p0, peers, k, s, n, page, bitInPage, pos - bitInPage);
      FindHere(p0, peers, k, s', e, op.Seeks());
    }
  }

  lemma FindHere(pages: seq<Page>, peers: nat, k: nat, s: nat, e: nat, val: bool)
    requires s <= e && BitAt(pages, peers, k, s) == val
    ensures FindFrom(pages, peers, k, s, e, val) == s
  {
  }

  lemma ProgressInBounds(op: Op, acc: Acc, peers: nat, k: nat, s: nat, e: nat, buffer: seq<Word>, base: nat,
                         p0: seq<Page>, page: nat, bitInPage: nat)
    requires Progress(op, acc, peers, k, s, e, buffer, base, p0) && s <= e
    requires Addresses(peers, k, s, page, bitInPage)
    ensures page < |acc.pages| && base <= s && Holds(p0, peers, k, s)
    ensures bitInPage < PAGE_BITS && bitInPage % 32 == s % 32
  {
    HoldsBelow(p0, peers, k, s, e);
    AddressesWord(p0, peers, k, s, page, bitInPage);
  }

  lemma ProgressStart(op: Op, p0: seq<Page>, peers: nat, k: nat, base: nat, e: nat, buffer: seq<Word>)
    requires base <= e && Holds(p0, peers, k, e)
    ensures Progress(op, Acc(p0, {}, 0), peers, k, base, e, buffer, base, p0)
    ensures Addresses(peers, k, base, WordIndex(peers, k, base) / PAGE_WORDS,
                      WordIndex(peers, k, base) % PAGE_WORDS * 32 + base % 32)
  {
  }

  /** Last bit an operation touches: the requested end, or the end of the bitmap. */
  function Clip(bits: nat, end: nat): int {
    if end >= bits then bits - 1 else end
  }

  lemma PeerHolds(pages: seq<Page>, peers: nat, k: nat, b: nat, last: nat)
    requires k < peers && b <= last && Holds(pages, peers, peers - 1, last)
    ensures Holds(pages, peers, k, b)
  {
    WordIndexMonotone(peers, peers - 1, b, last);
  }

  lemma ArgWordAligned(op: Op, arg: Word, buffer: seq<Word>, base: nat, s: nat, n: nat)
    requires op.Merge? ==> base % 32 == 0 && base <= s && s % 32 == 0 && (s - base) / 32 < |buffer|
    requires op.Merge? ==> arg == buffer[(s - base) / 32]
    requires s % 32 + n <= 32
    ensures ArgOk(op, arg, buffer, base, s, n)
  {
    if op.Merge? {
      forall i | s % 32 <= i < s % 32 + n ensures arg[i] == ArgWord(buffer, base, s)[i] {
        var b := s / 32 * 32 + i;
        var j := (s - base) / 32;
        assert s - base == 32 * j;
        assert b - base == 32 * j + i;
        assert (b - base) / 32 == j && (b - base) % 32 == i;
        assert ArgBit(buffer, base, b) == buffer[j][i];
        assert ArgWord(buffer, base, s)[i] == ArgBit(buffer, base, b);
      }
    }
  }

  /** `out` holds the bits of peer `k` from `base` on, clear beyond bit `e`. */
  ghost predicate OutWords(pages: seq<Page>, peers: nat, k: nat, base: nat, e: int, out: seq<Word>) {
    forall j, i :: 0 <= j < |out| && 0 <= i < 32 ==>
      out[j][i] == (base + 32 * j + i <= e && BitAt(pages, peers, k, base + 32 * j + i))
  }

  lemma ExtractWord(pages: seq<Page>, peers: nat, k: nat, base: nat, s: nat, n: nat, e: nat, page: nat, bitInPage: nat,
                    out: seq<Word>, got: Word)
    requires OutWords(pages, peers, k, base, e, out) && s == base + 32 * |out| && s % 32 == 0
    requires Addresses(peers, k, s, page, bitInPage) && page < |pages|
    requires n <= 32 && (if n == 32 then s + 31 <= e else s + n == e + 1)
    requires Holds(pages, peers, k, s)
    requires got[..n] == pages[page][bitInPage / 32][..n] && forall i :: n <= i < 32 ==> !got[i]
    ensures OutWords(pages, peers, k, base, e, out + [got])
  {
    hide BitAt, WordIndex;
    forall i | 0 <= i < 32 ensures got[i] == (s + i <= e && BitAt(pages, peers, k, s + i)) {
      if i < n {
        FindSegment(pages, peers, k, s, n, page, bitInPage, i);
        assert got[i] == got[..n][i] == pages[page][bitInPage / 32][i];
      }
    }
  }

  lemma SameHolds(p: seq<Page>, p': seq<Page>, peers: nat, q: nat, b: nat)
    requires |p| == |p'|
    ensures Holds(p, peers, q, b) == Holds(p', peers, q, b)
  {
  }

  /** What a find operation returns when nothing matches, and the other operations when the range is empty. */
  function NoMatch(op: Op, end0: nat): int {
    match op
    case FindBit | FindZeroBit => END_OF_BITMAP
    case RangeFindBit | RangeFindZeroBit => (end0 + 1) % (END_OF_BITMAP + 1)
    case _ => 0
  }

  /** The value an operation returns, in terms of the peer's bits before and after. */
  ghost function Result(op: Op, p0: seq<Page>, p1: seq<Page>, peers: nat, k: nat, s: nat, e: int, end0: nat): int {
    if s > e then NoMatch(op, end0)
    else
      match op
      case Set | Merge => CountRange(p1, peers, k, s, e + 1) - CountRange(p0, peers, k, s, e + 1)
      case Clear => CountRange(p0, peers, k, s, e + 1) - CountRange(p1, peers, k, s, e + 1)
      case Count => CountRange(p0, peers, k, s, e + 1)
      case Test => if BitAt(p0, peers, k, s) then 1 else 0
      case Extract => 0
      case _ =>
        var at := FindFrom(p0, peers, k, s, e, op.Seeks());
        if at <= e then at else NoMatch(op, end0)
  }

  /** `r` is the least bit of peer `k` in `s..e` with value `val`; without one it is `none`. */
  ghost predicate FirstFound(pages: seq<Page>, peers: nat, k: nat, s: nat, e: int, val: bool, none: int, r: int) {
    if exists b: nat :: s <= b <= e && BitAt(pages, peers, k, b) == val
    then
      && s <= r <= e && BitAt(pages, peers, k, r) == val
      && forall b: nat :: s <= b < r ==> BitAt(pages, peers, k, b) != val
    else r == none
  }

  /** What the four finds return: the first set bit or the first clear one, and what stands for none. */
  lemma FindIs(op: Op, p0: seq<Page>, p1: seq<Page>, peers: nat, k: nat, s: nat, e: int, end0: nat)
    ensures var r := Result(op, p0, p1, peers, k, s, e, end0);
      && (op.FindBit? ==> FirstFound(p0, peers, k, s, e, true, END_OF_BITMAP, r))
      && (op.FindZeroBit? ==> FirstFound(p0, peers, k, s, e, false, END_OF_BITMAP, r))
      && (op.RangeFindBit? ==> FirstFound(p0, peers, k, s, e, true, (end0 + 1) % 0x1_0000_0000_0000_0000, r))
      && (op.RangeFindZeroBit? ==> FirstFound(p0, peers, k, s, e, false, (end0 + 1) % 0x1_0000_0000_0000_0000, r))
  {
    hide BitAt;
  }

  lemma NothingDone(op: Op, pages: seq<Page>, peers: nat, k: nat, s: nat, e: int, end0: nat, buffer: seq<Word>)
    requires s > e
    ensures Applied(op, pages, pages, peers, k, s, e, buffer)
    ensures Result(op, pages, pages, peers, k, s, e, end0) == NoMatch(op, end0)
    ensures OutWords(pages, peers, k, s, e, [])
  {
  }

  lemma SameFlags(flags: set<nat>, pages: seq<Page>)
    ensures Flagged(flags, flags, pages, pages)
  {
  }

  lemma NoWords(pages: seq<Page>, peers: nat, k: nat, s: nat, e: nat)
    ensures OutWords(pages, peers, k, s, e, [])
  {
  }

  lemma TestHere(pages: seq<Page>, peers: nat, k: nat, s: nat, e: nat, end0: nat, page: nat, bitInPage: nat,
                 buffer: seq<Word>)
    requires s <= e && Holds(pages, peers, k, e) && Addresses(peers, k, s, page, bitInPage)
    ensures page < |pages|
    ensures Result(Test, pages, pages, peers, k, s, e, end0)
         == if pages[page][bitInPage / 32][bitInPage % 32] then 1 else 0
    ensures Applied(Test, pages, pages, peers, k, s, e, buffer)
  {
    HoldsBelow(pages, peers, k, s, e);
    AddressesWord(pages, peers, k, s, page, bitInPage);
  }

  /** A scan that has reached the end has done what the operation means. */
  lemma Finish(op: Op, p0: seq<Page>, p1: seq<Page>, dirty: set<nat>, total: nat, peers: nat, k: nat, base: nat, e: nat,
               end0: nat, buffer: seq<Word>)
    requires Progress(op, Acc(p1, dirty, total), peers, k, e + 1, e, buffer, base, p0) && !op.Test?
    ensures Applied(op, p0, p1, peers, k, base, e, buffer)
    ensures Result(op, p0, p1, peers, k, base, e, end0) == if op.IsFind() then NoMatch(op, end0) else total
    ensures Flagged({}, dirty, p0, p1)
  {
    hide Run, FindFrom, WordIndex, BitAt, CountRange;
    if op.IsFind() {
      FindEnd(p0, peers, k, e, op.Seeks());
    } else {
      var acc := Acc(p0, {}, 0);
      RunEmpty(op, Acc(p1, dirty, total), peers, k, e + 1, e, buffer, base);
      forall q: nat, b: nat
        ensures BitAt(p1, peers, q, b)
             == if q == k && base <= b <= e then BitOp(op, BitAt(p0, peers, k, b), ArgBit(buffer, base, b))
                else BitAt(p0, peers, q, b)
      {
        RunBits(op, acc, peers, k, base, e, buffer, base, q, b);
      }
      RunTotal(op, acc, peers, k, base, e, buffer, base);
      if op.Extract? {
        CountRangeAgree(p0, p1, peers, k, base, e + 1);
      }
      RunDirtyInRange(op, acc, peers, k, base, e, buffer, base);
      forall p | 0 <= p < |p0| ensures p in dirty <==> p0[p] != p1[p] {
        RunDirty(op, acc, peers, k, base, e, buffer, base, p);
      }
    }
  }

  lemma FoundHere(op: Op, p0: seq<Page>, peers: nat, k: nat, s: nat, e: nat, end0: nat, buffer: seq<Word>)
    requires op.IsFind() && s <= e && FindFrom(p0, peers, k, s, e, op.Seeks()) <= e
    ensures Applied(op, p0, p0, peers, k, s, e, buffer)
    ensures Result(op, p0, p0, peers, k, s, e, end0) == FindFrom(p0, peers, k, s, e, op.Seeks())
  {
  }

  lemma FindEnd(pages: seq<Page>, peers: nat, k: nat, e: nat, val: bool)
    ensures FindFrom(pages, peers, k, e + 1, e, val) == e + 1
  {
  }

  lemma FlagsSame(flags: set<nat>, flags': set<nat>, pages: seq<Page>)
    requires Flagged(flags, flags', pages, pages)
    ensures flags' == flags
  {
  }

  lemma AddFlags(flags: set<nat>, dirty: set<nat>, p0: seq<Page>, p1: seq<Page>)
    requires |p0| == |p1| && Flagged({}, dirty, p0, p1)
    ensures Flagged(flags, flags + dirty, p0, p1)
    ensures Flagged(flags, flags + {}, p0, p0)
  {
  }

  /** Cursor of `____bm_op`: position, changes on the current page, total so far, words extracted, hit of a find. */
  datatype Scan = Scan(start: nat, page: nat, bitInPage: nat, count: nat, total: nat, out: seq<Word>,
                       hit: bool, at: nat)

  lemma {:induction false} WeightZero(s: seq<bool>)
    requires forall i :: 0 <= i < |s| ==> !s[i]
    ensures Weight(s) == 0
  {
    if s != [] {
      WeightZero(s[..|s| - 1]);
    }
  }

  /** Trailing clear bits add no weight. */
  lemma {:induction false} WeightPadded(s: seq<bool>, t: seq<bool>)
    requires |s| <= |t| && t[..|s|] == s
    requires forall i :: |s| <= i < |t| ==> !t[i]
    ensures Weight(t) == Weight(s)
    decreases |t|
  {
    if |s| < |t| {
      assert t[..|t| - 1][..|s|] == s;
      WeightPadded(s, t[..|t| - 1]);
    } else {
      assert s == t;
    }
  }
}

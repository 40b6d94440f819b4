/** The page array of one device, read and written as words and as (peer, bit) pairs. */
module BitmapStore {
  import opened Words
  import opened BitmapLayout

  type Page = p: seq<Word> | |p| == 1024 witness seq(1024, _ => ZERO)

  const ZERO_PAGE: Page := seq(1024, _ => ZERO)

  predicate Blank(page: Page) {
    forall w, i :: 0 <= w < 1024 && 0 <= i < 32 ==> !page[w][i]
  }

  lemma BlankUnique(p: Page, q: Page)
    requires Blank(p) && Blank(q)
    ensures p == q
  {
    forall w | 0 <= w < 1024 ensures p[w] == q[w] {
    }
  }

  function ReadWord(pages: seq<Page>, w: nat): Word
    requires w < |pages| * PAGE_WORDS
  {
    pages[w / PAGE_WORDS][w % PAGE_WORDS]
  }

  function WriteWord(pages: seq<Page>, w: nat, x: Word): (r: seq<Page>)
    requires w < |pages| * PAGE_WORDS
    ensures |r| == |pages|
  {
    pages[w / PAGE_WORDS := pages[w / PAGE_WORDS][w % PAGE_WORDS := x]]
  }

  predicate Holds(pages: seq<Page>, peers: nat, q: nat, b: nat) {
    q < peers && WordIndex(peers, q, b) < |pages| * PAGE_WORDS
  }

  /** Bit `b` of peer `q`; a bit the pages do not hold reads as clear. */
  predicate BitAt(pages: seq<Page>, peers: nat, q: nat, b: nat) {
    Holds(pages, peers, q, b) && ReadWord(pages, WordIndex(peers, q, b))[b % 32]
  }

  lemma HoldsBelow(pages: seq<Page>, peers: nat, k: nat, a: nat, b: nat)
    requires a <= b && Holds(pages, peers, k, b)
    ensures Holds(pages, peers, k, a)
  {
    WordIndexMonotone(peers, k, a, b);
  }

  /** Number of set bits of peer `k` in `[s, e)`. */
  function CountRange(pages: seq<Page>, peers: nat, k: nat, s: nat, e: nat): nat {
    if s >= e then 0
    else CountRange(pages, peers, k, s, e - 1) + if BitAt(pages, peers, k, e - 1) then 1 else 0
  }

  lemma {:induction false} CountRangeSplit(pages: seq<Page>, peers: nat, k: nat, s: nat, m: nat, e: nat)
    requires s <= m <= e
    ensures CountRange(pages, peers, k, s, e)
         == CountRange(pages, peers, k, s, m) + CountRange(pages, peers, k, m, e)
  {
    if m < e {
      CountRangeSplit(pages, peers, k, s, m, e - 1);
    }
  }

  /** Two stores that agree on a range have the same weight there. */
  lemma {:induction false} CountRangeAgree(p: seq<Page>, p': seq<Page>, peers: nat, k: nat, s: nat, e: nat)
    requires forall b :: s <= b < e ==> BitAt(p, peers, k, b) == BitAt(p', peers, k, b)
    ensures CountRange(p, peers, k, s, e) == CountRange(p', peers, k, s, e)
  {
    if s < e {
      CountRangeAgree(p, p', peers, k, s, e - 1);
    }
  }

  lemma {:induction false} CountRangeConst(p: seq<Page>, peers: nat, k: nat, s: nat, e: nat, val: bool)
    requires s <= e
    requires forall b :: s <= b < e ==> BitAt(p, peers, k, b) == val
    ensures CountRange(p, peers, k, s, e) == if val then e - s else 0
  {
    if s < e {
      CountRangeConst(p, peers, k, s, e - 1, val);
    }
  }

  lemma {:induction false} CountRangeBound(p: seq<Page>, peers: nat, k: nat, s: nat, e: nat)
    requires s <= e
    ensures CountRange(p, peers, k, s, e) <= e - s
  {
    if s < e {
      CountRangeBound(p, peers, k, s, e - 1);
    }
  }

  lemma WriteWordSame(pages: seq<Page>, w: nat)
    requires w < |pages| * PAGE_WORDS
    ensures WriteWord(pages, w, ReadWord(pages, w)) == pages
  {
    var page := pages[w / PAGE_WORDS];
    assert page[w % PAGE_WORDS := page[w % PAGE_WORDS]] == page;
  }

  lemma ReadWrittenWord(pages: seq<Page>, w: nat, x: Word)
    requires w < |pages| * PAGE_WORDS
    ensures ReadWord(WriteWord(pages, w, x), w) == x
  {
  }

  lemma WriteWordTwice(pages: seq<Page>, w: nat, x: Word, y: Word)
    requires w < |pages| * PAGE_WORDS
    ensures WriteWord(WriteWord(pages, w, x), w, y) == WriteWord(pages, w, y)
  {
    var page := pages[w / PAGE_WORDS];
    assert page[w % PAGE_WORDS := x][w % PAGE_WORDS := y] == page[w % PAGE_WORDS := y];
  }

  /** Writing one word of peer `k` changes no other (peer, bit). */
  lemma WriteWordFrame(pages: seq<Page>, peers: nat, k: nat, s: nat, x: Word, q: nat, b: nat)
    requires Holds(pages, peers, k, s)
    ensures var pages' := WriteWord(pages, WordIndex(peers, k, s), x);
      && Holds(pages', peers, q, b) == Holds(pages, peers, q, b)
      && BitAt(pages', peers, q, b)
         == (if q == k && b / 32 == s / 32 then x[b % 32] else BitAt(pages, peers, q, b))
  {
    if Holds(pages, peers, q, b) && WordIndex(peers, k, s) == WordIndex(peers, q, b) {
      WordIndexInjective(peers, k, s, q, b);
    }
  }
}

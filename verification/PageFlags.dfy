/** Write-out flags of the bitmap pages, against the pages in the metadata area. */
module PageFlags {
  import opened Arithmetic
  import opened BitmapLayout
  import opened BitmapStore
  import opened BitmapOps
  import opened BitmapScan

  /** Every page without a dirty flag is on disk as it is in memory. */
  ghost predicate OnDisk(pages: seq<Page>, need: set<nat>, lazy: set<nat>, disk: seq<Page>) {
    forall p :: 0 <= p < |pages| && p !in need && p !in lazy ==> p < |disk| && disk[p] == pages[p]
  }

  /** Page flags are flags of pages that exist. */
  ghost predicate Within(flags: set<nat>, pages: nat) {
    forall p :: p in flags ==> p < pages
  }

  lemma FlagsWithin(flags: set<nat>, flags': set<nat>, p0: seq<Page>, p1: seq<Page>)
    requires |p0| == |p1| && Flagged(flags, flags', p0, p1) && Within(flags, |p0|)
    ensures Within(flags', |p0|)
  {
  }

  /** Exactly the pages in `written` have been written. */
  ghost predicate Wrote(disk0: seq<Page>, disk1: seq<Page>, pages: seq<Page>, written: set<nat>) {
    && |disk1| == |disk0|
    && forall p :: 0 <= p < |disk0| ==> disk1[p] == if p in written && p < |pages| then pages[p] else disk0[p]
  }

  lemma NothingWrote(disk: seq<Page>, pages: seq<Page>)
    ensures Wrote(disk, disk, pages, {})
  {
  }

  lemma WroteMore(disk0: seq<Page>, disk1: seq<Page>, disk2: seq<Page>, pages: seq<Page>, written: set<nat>, i: nat)
    requires Wrote(disk0, disk1, pages, written) && i < |pages| <= |disk1| && disk2 == disk1[i := pages[i]]
    ensures Wrote(disk0, disk2, pages, written + {i})
  {
  }

  /** Writing flagged pages and clearing their flags neither makes nor breaks the rule for the others. */
  lemma WroteOnDisk(disk0: seq<Page>, disk1: seq<Page>, pages: seq<Page>, need: set<nat>, lazy: set<nat>,
                    done: set<nat>)
    requires Wrote(disk0, disk1, pages, done * (need + lazy)) && |pages| <= |disk0|
    ensures OnDisk(pages, need - done, lazy - done, disk1) <==> OnDisk(pages, need, lazy, disk0)
  {
  }

  // ---- flags and contents of pages over a resize

  /** A page whose content has changed is flagged, and no page has lost a flag. */
  ghost predicate Redirtied(p0: seq<Page>, p1: seq<Page>, need: set<nat>, need': set<nat>, lazy: set<nat>,
                            lazy': set<nat>) {
    && |p0| == |p1| && need <= need' && lazy <= lazy'
    && forall p :: 0 <= p < |p0| && p0[p] != p1[p] ==> p in need' || p in lazy'
  }

  /**
   * Pages that were zero and without a flag have one now exactly if they are no longer zero, and it is the urgent
   * one.
   */
  ghost predicate BlankFlags(p0: seq<Page>, p1: seq<Page>, need: set<nat>, need': set<nat>, lazy: set<nat>,
                             lazy': set<nat>) {
    && |p0| == |p1|
    && forall p :: 0 <= p < |p0| && Blank(p0[p]) && p !in need && p !in lazy ==>
         p !in lazy' && (p in need' <==> !Blank(p1[p]))
  }

  lemma NothingRedirtied(pages: seq<Page>, need: set<nat>, lazy: set<nat>)
    ensures Redirtied(pages, pages, need, need, lazy, lazy) && BlankFlags(pages, pages, need, need, lazy, lazy)
  {
    hide Blank;
  }

  lemma MoreRedirtied(op: Op, p0: seq<Page>, p1: seq<Page>, p2: seq<Page>, need0: set<nat>, need1: set<nat>,
                      need2: set<nat>, lazy0: set<nat>, lazy1: set<nat>, lazy2: set<nat>)
    requires Redirtied(p0, p1, need0, need1, lazy0, lazy1) && |p1| == |p2|
    requires Flagged(need1, need2, p1, if op.Clear? then p1 else p2)
    requires Flagged(lazy1, lazy2, p1, if op.Clear? then p2 else p1)
    ensures Redirtied(p0, p2, need0, need2, lazy0, lazy2)
  {
  }

  /** Every word of a page is some peer's word. */
  lemma WordOwner(peers: nat, w: nat, i: nat)
    requires peers > 0 && i < 32
    ensures var q, b := w % peers, 32 * (w / peers) + i; q < peers && WordIndex(peers, q, b) == w && b % 32 == i
  {
    assert (32 * (w / peers) + i) / 32 == w / peers;
  }

  /** A page that is not zero holds a set bit of some peer. */
  lemma SetBitOn(pages: seq<Page>, peers: nat, p: nat) returns (q: nat, b: nat)
    requires peers > 0 && p < |pages| && !Blank(pages[p])
    ensures q < peers && PageOf(peers, q, b) == p && BitAt(pages, peers, q, b)
  {
    var w, i :| 0 <= w < 1024 && 0 <= i < 32 && pages[p][w][i];
    var v := p * PAGE_WORDS + w;
    q, b := v % peers, 32 * (v / peers) + i;
    WordOwner(peers, v, i);
    Quotient(w, p, PAGE_WORDS);
  }

  lemma BlankHasNone(pages: seq<Page>, peers: nat, q: nat, b: nat)
    requires PageOf(peers, q, b) < |pages| && Blank(pages[PageOf(peers, q, b)])
    ensures !BitAt(pages, peers, q, b)
  {
  }

  /** Setting or clearing bits keeps a zero page zero or flags it, and never makes another page zero by setting. */
  lemma MoreBlankFlags(op: Op, p0: seq<Page>, p1: seq<Page>, p2: seq<Page>, need0: set<nat>, need1: set<nat>,
                       need2: set<nat>,
                       lazy0: set<nat>, lazy1: set<nat>, lazy2: set<nat>, peers: nat, k: nat, s: nat, e: int)
    requires (op.Set? || op.Clear?) && peers > 0 && BlankFlags(p0, p1, need0, need1, lazy0, lazy1) && |p1| == |p2|
    requires Applied(op, p1, p2, peers, k, s, e, [])
    requires Flagged(need1, need2, p1, if op.Clear? then p1 else p2)
    requires Flagged(lazy1, lazy2, p1, if op.Clear? then p2 else p1)
    requires op.Clear? ==> forall p :: 0 <= p < |p0| && Blank(p0[p]) ==> Blank(p1[p])
    ensures BlankFlags(p0, p2, need0, need2, lazy0, lazy2)
    ensures op.Clear? ==> forall p :: 0 <= p < |p0| && Blank(p0[p]) ==> Blank(p2[p])
  {
    hide Blank, Applied, PageOf, BitAt;
    forall p | 0 <= p < |p1|
      ensures op.Clear? && Blank(p1[p]) ==> p2[p] == p1[p]
      ensures op.Set? && !Blank(p1[p]) ==> !Blank(p2[p])
      ensures Blank(p1[p]) && Blank(p2[p]) ==> p2[p] == p1[p]
    {
      BlankAfter(op, p1, p2, peers, k, s, e, p);
    }
  }

  lemma BlankAfter(op: Op, p1: seq<Page>, p2: seq<Page>, peers: nat, k: nat, s: nat, e: int, p: nat)
    requires (op.Set? || op.Clear?) && peers > 0 && |p1| == |p2| && Applied(op, p1, p2, peers, k, s, e, []) && p < |p1|
    ensures op.Clear? && Blank(p1[p]) ==> p2[p] == p1[p]
    ensures op.Set? && !Blank(p1[p]) ==> !Blank(p2[p])
    ensures Blank(p1[p]) && Blank(p2[p]) ==> p2[p] == p1[p]
  {
    hide Blank, PageOf, BitAt;
    if op.Clear? && Blank(p1[p]) && !Blank(p2[p]) {
      var q, b := SetBitOn(p2, peers, p);
      BlankHasNone(p1, peers, q, b);
      assert false;
    }
    if op.Set? && !Blank(p1[p]) {
      var q, b := SetBitOn(p1, peers, p);
      if Blank(p2[p]) {
        BlankHasNone(p2, peers, q, b);
        assert false;
      }
    }
    if Blank(p1[p]) && Blank(p2[p]) {
      BlankUnique(p1[p], p2[p]);
    }
  }

  /** `p1` is `p0` cut off, or extended by pages of zeros. */
  ghost predicate Realloc(p0: seq<Page>, p1: seq<Page>) {
    forall p :: 0 <= p < |p1| ==> if p < |p0| then p1[p] == p0[p] else Blank(p1[p])
  }

  /** `bm_realloc_pages` */
  function Reallocate(pages: seq<Page>, want: nat): (r: seq<Page>)
    ensures |r| == want && Realloc(pages, r)
    ensures forall i :: 0 <= i < |pages| && i < |r| ==> r[i] == pages[i]
  {
    if want >= |pages| then pages + seq(want - |pages|, _ => ZERO_PAGE) else pages[..want]
  }

  /** Bits below both sizes are unchanged, and new ones have value `v`. */
  ghost predicate BitsKept(p0: seq<Page>, p1: seq<Page>, peers: nat, bits0: nat, bits1: nat, v: bool) {
    forall q, b :: 0 <= q < peers && 0 <= b < bits1 ==>
      BitAt(p1, peers, q, b) == if b < bits0 then BitAt(p0, peers, q, b) else v
  }

  /** The bits from `bits0` to `bits1` of all peers got value `v`, and nothing else changed. */
  ghost predicate Grown(p0: seq<Page>, p1: seq<Page>, peers: nat, k: nat, bits0: nat, bits1: nat, v: bool) {
    forall q: nat, b: nat :: BitAt(p1, peers, q, b) == if q < k && bits0 <= b < bits1 then v else BitAt(p0, peers, q, b)
  }

  lemma NotGrownYet(p: seq<Page>, peers: nat, bits0: nat, bits1: nat, v: bool)
    ensures Grown(p, p, peers, 0, bits0, bits1, v)
  {
  }

  lemma GrownMore(p0: seq<Page>, p1: seq<Page>, p2: seq<Page>, peers: nat, k: nat, bits0: nat, bits1: nat, v: bool)
    requires Grown(p0, p1, peers, k, bits0, bits1, v)
    requires forall q: nat, b: nat ::
               BitAt(p2, peers, q, b) == if q == k && bits0 <= b < bits1 then v else BitAt(p1, peers, q, b)
    ensures Grown(p0, p2, peers, k + 1, bits0, bits1, v)
  {
    hide BitAt;
  }

  lemma GrownKept(p0: seq<Page>, p1: seq<Page>, peers: nat, bits0: nat, bits1: nat, v: bool)
    requires Grown(p0, p1, peers, peers, bits0, bits1, v)
    ensures BitsKept(p0, p1, peers, bits0, bits1, v)
  {
    hide BitAt;
  }

  /** New bits are set, and some peer has one of them, from `bits0` to `bits1`, on page `p`. */
  ghost predicate GetsFlag(v: bool, peers: nat, bits0: nat, bits1: nat, p: nat) {
    v && exists q: nat, b: nat :: q < peers && bits0 <= b < bits1 && PageOf(peers, q, b) == p
  }

  /** A page that was zero is so still exactly if none of the new bits is on it, or they are clear. */
  lemma GrownBlank(p0: seq<Page>, p1: seq<Page>, peers: nat, bits0: nat, bits1: nat, v: bool, p: nat)
    requires peers > 0 && |p0| == |p1| && Grown(p0, p1, peers, peers, bits0, bits1, v) && p < |p0| && Blank(p0[p])
    ensures !Blank(p1[p]) <==> GetsFlag(v, peers, bits0, bits1, p)
  {
    hide Blank, PageOf, BitAt;
    if !Blank(p1[p]) {
      var q, b := SetBitOn(p1, peers, p);
      BlankHasNone(p0, peers, q, b);
    } else if GetsFlag(v, peers, bits0, bits1, p) {
      var q: nat, b: nat :| q < peers && bits0 <= b < bits1 && PageOf(peers, q, b) == p;
      BlankHasNone(p1, peers, q, b);
      assert false;
    }
  }

  /**
   * Which new pages have a flag: those that hold new bits, if these are set. What was written before stays written
   * exactly if every other new page is zero on disk.
   */
  ghost predicate FlagsKept(p0: seq<Page>, p1: seq<Page>, need0: set<nat>, need1: set<nat>, lazy0: set<nat>,
                            lazy1: set<nat>, disk: seq<Page>, set': bool, peers: nat, bits0: nat, bits1: nat) {
    && (forall p :: |p0| <= p < |p1| ==> p !in lazy1 && (p in need1 <==> GetsFlag(set', peers, bits0, bits1, p)))
    && (OnDisk(p0, need0, lazy0, disk) ==>
          (OnDisk(p1, need1, lazy1, disk) <==>
             forall p :: |p0| <= p < |p1| && !GetsFlag(set', peers, bits0, bits1, p) ==> p < |disk| && Blank(disk[p])))
  }

  lemma SameKept(p: seq<Page>, peers: nat, bits: nat, need: set<nat>, lazy: set<nat>, disk: seq<Page>, v: bool)
    ensures BitsKept(p, p, peers, bits, bits, v) && FlagsKept(p, p, need, need, lazy, lazy, disk, v, peers, bits, bits)
  {
  }

  lemma NoneKept(p: seq<Page>, peers: nat, bits: nat, need: set<nat>, lazy: set<nat>, disk: seq<Page>, v: bool)
    ensures BitsKept(p, [], peers, bits, 0, v) && FlagsKept(p, [], need, {}, lazy, {}, disk, v, peers, bits, 0)
  {
  }

  lemma OldBits(p: seq<Page>, peers: nat, bits0: nat, bits1: nat, v: bool)
    requires bits1 <= bits0
    ensures BitsKept(p, p, peers, bits0, bits1, v) && Grown(p, p, peers, peers, bits0, bits1, v)
  {
  }

  lemma BitsVia(p0: seq<Page>, p1: seq<Page>, p2: seq<Page>, peers: nat, bits0: nat, bits1: nat, v: bool)
    requires BitsKept(p1, p2, peers, bits0, bits1, v)
    requires forall q, b :: 0 <= q < peers && 0 <= b < bits1 && b < bits0 ==>
               BitAt(p1, peers, q, b) == BitAt(p0, peers, q, b)
    ensures BitsKept(p0, p2, peers, bits0, bits1, v)
  {
    hide BitAt;
  }

  lemma RefitFlags(p0: seq<Page>, p1: seq<Page>, p2: seq<Page>, need0: set<nat>, need1: set<nat>, need2: set<nat>,
                   lazy0: set<nat>, lazy1: set<nat>, lazy2: set<nat>, disk: seq<Page>, v: bool, peers: nat, bits0: nat,
                   bits1: nat)
    requires peers > 0 && Realloc(p0, p1) && Redirtied(p1, p2, need1, need2, lazy1, lazy2)
    requires BlankFlags(p1, p2, need1, need2, lazy1, lazy2) && Grown(p1, p2, peers, peers, bits0, bits1, v)
    requires need1 == (set p | p in need0 && p < |p1|) && lazy1 == (set p | p in lazy0 && p < |p1|)
    requires Within(need0, |p0|) && Within(lazy0, |p0|)
    ensures FlagsKept(p0, p2, need0, need2, lazy0, lazy2, disk, v, peers, bits0, bits1)
  {
    hide Blank, Grown, GetsFlag;
    forall p | |p0| <= p < |p2|
      ensures p !in lazy2 && (p in need2 <==> GetsFlag(v, peers, bits0, bits1, p))
      ensures p !in need2 && p < |disk| ==> (disk[p] == p2[p] <==> Blank(disk[p]))
    {
      GrownBlank(p1, p2, peers, bits0, bits1, v, p);
      if p < |disk| && Blank(disk[p]) && Blank(p2[p]) {
        BlankUnique(disk[p], p2[p]);
      }
    }
    if OnDisk(p0, need0, lazy0, disk) {
      forall p | 0 <= p < |p2| && p !in need2 && p !in lazy2 && p < |p0|
        ensures p < |disk| && disk[p] == p2[p]
      {
        assert p !in need0 && p !in lazy0 && p2[p] == p1[p] == p0[p];
      }
    }
  }
}

/** What `update_sync_bits` makes of the failed counts `rs_failed`, extent by extent. */
module FailedCounts {
  import opened BitmapStore
  import opened BitmapOps
  import opened BitmapScan
  import opened Options
  import opened LruCache
  import opened AlRefs
  import opened ResyncLock
  import opened SyncCounts
  import opened LostCounts

  /** Bits of extent `e` in `s..last` that a call changes or, for failed requests, finds still set. */
  ghost function Hits(mode: Mode, pages: seq<Page>, peers: nat, k: nat, s: nat, last: int, e: nat): int {
    var lo := if s < e * BM_BITS_PER_EXT then e * BM_BITS_PER_EXT else s;
    var hi := if last + 1 < (e + 1) * BM_BITS_PER_EXT then last + 1 else (e + 1) * BM_BITS_PER_EXT;
    if lo >= hi then 0
    else if mode.SetOutOfSync? then hi - lo - CountRange(pages, peers, k, lo, hi)
    else CountRange(pages, peers, k, lo, hi)
  }

  /** The failed count of an extent that was updated, reset if no more bits than that are left and a reset is due. */
  ghost predicate Booked(ext: Ext, failed: int, reset: bool) {
    ext.rsFailed == if reset && ext.rsLeft <= failed then 0 else failed
  }

  /** An update of extent `enr` finds a slot: bits that were set only matter to a cached extent. */
  predicate Reached(lru: Cache, enr: nat, mode: Mode) {
    if mode.SetOutOfSync? then lru.Find(enr, false).Some? else Fetchable(lru, enr)
  }

  /** One slice, `c` bits of extent `enr`: its own slot is booked, and all others stay. */
  ghost predicate Sliced(was: Peer, now: Peer, enr: nat, c: int, mode: Mode, reset: bool) {
    && |now.exts| == |was.exts| == |now.lru.slots| == |was.lru.slots|
    && (forall i :: 0 <= i < |was.exts| && now.lru.slots[i].number != enr ==>
          now.lru.slots[i] == was.lru.slots[i] && now.exts[i] == was.exts[i])
    && (c == 0 || !Reached(was.lru, enr, mode) ==> now.exts == was.exts && now.lru.slots == was.lru.slots)
    && (c != 0 && Reached(was.lru, enr, mode) ==>
          var i := now.lru.Find(enr, false);
          i.Some? && Booked(now.exts[i.value], FailedCount(was.lru, was.exts, enr, mode, c), reset))
  }

  lemma SlicedAt(was: Peer, now: Peer, enr: nat, i: nat, c: int, mode: Mode, reset: bool, cleared: bool)
    requires Committed(was.lru, was.exts) && Committed(now.lru, now.exts) && |now.exts| == |was.exts| && i < |now.exts|
    requires enr != LC_FREE && c != 0 && Reached(was.lru, enr, mode)
    requires forall j :: 0 <= j < |now.exts| && j != i ==>
               now.lru.slots[j] == was.lru.slots[j] && now.exts[j] == was.exts[j]
    requires Tallied(now.lru, now.exts, enr, Some(i), FailedCount(was.lru, was.exts, enr, mode, c), reset, cleared)
    ensures Sliced(was, now, enr, c, mode, reset)
  {
    hide FailedCount, Fetchable, Cache.Valid;
    FoundAt(now.lru, now.exts, enr, i);
  }

  lemma SlicedNot(was: Peer, now: Peer, enr: nat, c: int, mode: Mode, reset: bool)
    requires |was.exts| == |was.lru.slots| && (c == 0 || !Reached(was.lru, enr, mode))
    requires now.exts == was.exts && now.lru.slots == was.lru.slots
    ensures Sliced(was, now, enr, c, mode, reset)
  {
  }

  /** The lookup of extent `e` comes when the cache is starving. */
  ghost predicate Ignored(lru: Cache, mode: Mode, pages: seq<Page>, peers: nat, k: nat, s: nat, last: int, e: nat) {
    !mode.SetOutOfSync? && (lru.starving || (Exhausted(lru) && Missed(lru, pages, peers, k, s, last, e)))
  }

  /** Some extent with a bit set in the range is not cached, so that a slot may be recycled. */
  ghost predicate Recycles(lru: Cache, mode: Mode, pages: seq<Page>, peers: nat, k: nat, s: nat, last: int) {
    !mode.SetOutOfSync? && exists e :: lru.Find(e, false).None? && Touched(pages, peers, k, s, last, e)
  }

  /**
   * Slot `i` afterwards, with `n` hits on its extent. Without hits, or if the lookup was ignored, it is as it was. Else
   * its failed count is the one before, or none if the extent was not cached (or may have been recycled meanwhile),
   * and the hits for failed requests.
   */
  ghost predicate SlotBooked(was: Peer, now: Peer, i: nat, n: int, ignored: bool, missed: bool, mode: Mode, reset: bool)
    requires |now.exts| == |was.exts| == |now.lru.slots| == |was.lru.slots| && i < |now.exts|
  {
    if n == 0 || ignored then now.lru.slots[i].number == was.lru.slots[i].number && now.exts[i] == was.exts[i]
    else
      var added, j := if mode.RecordRsFailed? then n else 0, was.lru.Find(now.lru.slots[i].number, false);
      if j.None? then Booked(now.exts[i], added, reset)
      else
        || Booked(now.exts[i], was.exts[j.value].rsFailed + added, reset)
        || (missed && Booked(now.exts[i], added, reset))
  }

  /** Every cached extent after the bits `s..last` have been worked through. */
  ghost predicate Account(was: Peer, now: Peer, mode: Mode, pages: seq<Page>, peers: nat, k: nat, s: nat, last: int,
                          reset: bool) {
    && |now.exts| == |was.exts| == |now.lru.slots| == |was.lru.slots|
    && (now.lru.slots == was.lru.slots || Recycles(was.lru, mode, pages, peers, k, s, last))
    && forall i :: 0 <= i < |now.exts| && !now.lru.slots[i].Free() ==>
         var e := now.lru.slots[i].number;
         SlotBooked(was, now, i, Hits(mode, pages, peers, k, s, last, e),
                    Ignored(was.lru, mode, pages, peers, k, s, last, e),
                    !mode.SetOutOfSync? && Missed(was.lru, pages, peers, k, s, last, e), mode, reset)
  }

  /** The last extent with a bit set in the range is cached afterwards, if a slot could be had for it. */
  ghost predicate LastCached(was: Peer, now: Peer, mode: Mode, pages: seq<Page>, peers: nat, k: nat, s: nat,
                             last: int) {
    forall e: nat ::
      && Touched(pages, peers, k, s, last, e) && (forall e': nat :: e' > e ==> !Touched(pages, peers, k, s, last, e'))
      && !Ignored(was.lru, mode, pages, peers, k, s, last, e)
      && (was.lru.Find(e, false).Some? || (!was.lru.locked && was.lru.UnusedAvailable())) ==>
        now.lru.Find(e, false).Some?
  }

  /** A count is positive exactly if a bit is set. */
  lemma CountIsPositive(pages: seq<Page>, peers: nat, k: nat, lo: nat, hi: nat)
    requires lo <= hi
    ensures CountRange(pages, peers, k, lo, hi) > 0 <==> exists b: nat :: lo <= b < hi && BitAt(pages, peers, k, b)
  {
    hide BitAt;
    if b: nat :| lo <= b < hi && BitAt(pages, peers, k, b) {
      CountRangeSplit(pages, peers, k, lo, b, hi);
      CountRangeSplit(pages, peers, k, b, b + 1, hi);
      CountRangeBound(pages, peers, k, lo, b);
      CountRangeBound(pages, peers, k, b + 1, hi);
      OneBit(pages, peers, k, b);
    } else {
      CountRangeConst(pages, peers, k, lo, hi, false);
    }
  }

  /** What a slice returns are the hits on its extent; all others have theirs already. */
  lemma SliceHits(mode: Mode, p0: seq<Page>, p1: seq<Page>, p2: seq<Page>, peers: nat, k: nat, s0: nat, s: nat, t: nat,
                  bits: nat, count: int, c: int, e: nat)
    requires s0 <= s <= t && (s == s0 || s % BM_BITS_PER_EXT == 0) && s / BM_BITS_PER_EXT == t / BM_BITS_PER_EXT
    requires Done(mode.Op(), p0, p1, peers, k, s0, s, bits, count)
    requires Applied(mode.Op(), p1, p2, peers, k, s, Clip(bits, t), [])
    requires c == Result(mode.Op(), p1, p2, peers, k, s, Clip(bits, t), t)
    ensures Hits(mode, p0, peers, k, s0, Clip(bits, t), e)
         == if e == s / BM_BITS_PER_EXT then c else Hits(mode, p0, peers, k, s0, LastDone(bits, s), e)
    ensures e >= s / BM_BITS_PER_EXT ==> Hits(mode, p0, peers, k, s0, LastDone(bits, s), e) == 0
    ensures e > s / BM_BITS_PER_EXT ==> Hits(mode, p0, peers, k, s0, Clip(bits, t), e) == 0
  {
    hide BitAt, CountRange;
    var enr, end := s / BM_BITS_PER_EXT, Clip(bits, t);
    if e == enr && s <= end {
      CountRangeAgree(p0, p1, peers, k, s, end + 1);
      if !mode.RecordRsFailed? {
        CountRangeConst(p2, peers, k, s, end + 1, mode.SetOutOfSync?);
      }
    }
  }

  /** A slice that clears or records has something to do exactly if a bit of its extent is set. */
  lemma SliceTouched(mode: Mode, p0: seq<Page>, peers: nat, k: nat, s0: nat, s: nat, t: nat, bits: nat, c: int)
    requires s0 <= s <= t && (s == s0 || s % BM_BITS_PER_EXT == 0) && s / BM_BITS_PER_EXT == t / BM_BITS_PER_EXT
    requires c == Hits(mode, p0, peers, k, s0, Clip(bits, t), s / BM_BITS_PER_EXT) && !mode.SetOutOfSync?
    ensures c != 0 <==> Touched(p0, peers, k, s, Clip(bits, t), s / BM_BITS_PER_EXT)
  {
    hide BitAt, CountRange;
    var enr, end := s / BM_BITS_PER_EXT, Clip(bits, t);
    if s <= end {
      CountIsPositive(p0, peers, k, s, end + 1);
      forall b: nat | s <= b <= end ensures b / BM_BITS_PER_EXT == enr {
      }
    }
  }

  /** Whether an earlier extent was missed does not change with later slices. */
  lemma SameMissed(lru: Cache, p0: seq<Page>, peers: nat, k: nat, s0: nat, s: nat, t: nat, bits: nat, e: nat)
    requires s0 <= s <= t && (s == s0 || s % BM_BITS_PER_EXT == 0) && s / BM_BITS_PER_EXT == t / BM_BITS_PER_EXT
    requires e <= s / BM_BITS_PER_EXT
    ensures Missed(lru, p0, peers, k, s0, Clip(bits, t), e) <==> Missed(lru, p0, peers, k, s0, LastDone(bits, s), e)
    ensures e == s / BM_BITS_PER_EXT ==>
              (Missed(lru, p0, peers, k, s0, Clip(bits, t), e) <==>
                 exists e' :: lru.Find(e', false).None? && Touched(p0, peers, k, s0, LastDone(bits, s), e'))
  {
    hide Touched, Cache.Find;
    forall e': nat
      ensures Touched(p0, peers, k, s0, Clip(bits, t), e') <==>
                || Touched(p0, peers, k, s0, LastDone(bits, s), e')
                || (e' == s / BM_BITS_PER_EXT && Touched(p0, peers, k, s, Clip(bits, t), e'))
      ensures Touched(p0, peers, k, s0, LastDone(bits, s), e') ==> e' < s / BM_BITS_PER_EXT
    {
      TouchedMore(p0, peers, k, s0, s, t, bits, e');
    }
  }

  /** The cache that a slice meets: the one before the call, or one whose slots have been recycled. */
  ghost predicate Met(was: Peer, mid: Peer, mode: Mode, p0: seq<Page>, peers: nat, k: nat, s: nat, last: int) {
    && Committed(was.lru, was.exts) && Committed(mid.lru, mid.exts) && Kept(was, mid)
    && (mode.SetOutOfSync? || ShownBy(was, mid, p0, peers, k, s, last))
  }

  lemma MetNow(was: Peer, mid: Peer, mode: Mode, p0: seq<Page>, peers: nat, k: nat, s: nat, last: int)
    requires Committed(was.lru, was.exts) && Committed(mid.lru, mid.exts) && Kept(was, mid)
    requires !mode.SetOutOfSync? ==> ShownBy(was, mid, p0, peers, k, s, last)
    ensures Met(was, mid, mode, p0, peers, k, s, last)
  {
  }

  /** The slot of the slice's own extent, if it has one afterwards. */
  lemma OwnSlot(was: Peer, mid: Peer, now: Peer, mode: Mode, p0: seq<Page>, peers: nat, k: nat, s0: nat, s: nat, t: nat,
                bits: nat, c: int, reset: bool, i: nat)
    requires s0 <= s <= t && (s == s0 || s % BM_BITS_PER_EXT == 0)
    requires s / BM_BITS_PER_EXT == t / BM_BITS_PER_EXT < LC_FREE
    requires Met(was, mid, mode, p0, peers, k, s0, LastDone(bits, s)) && Committed(now.lru, now.exts)
    requires Account(was, mid, mode, p0, peers, k, s0, LastDone(bits, s), reset)
    requires Hits(mode, p0, peers, k, s0, LastDone(bits, s), s / BM_BITS_PER_EXT) == 0
    requires Sliced(mid, now, s / BM_BITS_PER_EXT, c, mode, reset)
    requires i < |now.exts| && now.lru.slots[i].number == s / BM_BITS_PER_EXT
    ensures SlotBooked(was, now, i, c, Ignored(was.lru, mode, p0, peers, k, s0, Clip(bits, t), s / BM_BITS_PER_EXT),
                       !mode.SetOutOfSync? && Missed(was.lru, p0, peers, k, s0, Clip(bits, t), s / BM_BITS_PER_EXT),
                       mode, reset)
  {
    hide Hits, Touched, Missed, Cache.Valid, Booked;
    var enr := s / BM_BITS_PER_EXT;
    SameMissed(was.lru, p0, peers, k, s0, s, t, bits, enr);
    FoundAt(now.lru, now.exts, enr, i);
    var j := mid.lru.Find(enr, false);
    if j.Some? {
      FoundAt(was.lru, was.exts, enr, j.value);
    } else if mid.lru.slots == was.lru.slots {
      SameFind(was.lru, mid.lru, enr);
    }
    if now.lru.slots == mid.lru.slots {
      FoundAt(mid.lru, mid.exts, enr, i);
    }
  }

  /** Each slice carries the account on. */
  lemma SliceAccount(was: Peer, mid: Peer, now: Peer, mode: Mode, p0: seq<Page>, p1: seq<Page>, p2: seq<Page>,
                     peers: nat, k: nat, s0: nat, s: nat, t: nat, bits: nat, count: int, c: int, reset: bool)
    requires s0 <= s <= t && (s == s0 || s % BM_BITS_PER_EXT == 0)
    requires s / BM_BITS_PER_EXT == t / BM_BITS_PER_EXT < LC_FREE
    requires Done(mode.Op(), p0, p1, peers, k, s0, s, bits, count)
    requires Applied(mode.Op(), p1, p2, peers, k, s, Clip(bits, t), [])
    requires c == Result(mode.Op(), p1, p2, peers, k, s, Clip(bits, t), t)
    requires Met(was, mid, mode, p0, peers, k, s0, LastDone(bits, s)) && Committed(now.lru, now.exts)
    requires Account(was, mid, mode, p0, peers, k, s0, LastDone(bits, s), reset)
    requires Sliced(mid, now, s / BM_BITS_PER_EXT, c, mode, reset)
    requires if mode.SetOutOfSync? then now.lru == mid.lru
             else if c == 0 then now == mid else Looked(mid, now, s / BM_BITS_PER_EXT)
    ensures Account(was, now, mode, p0, peers, k, s0, Clip(bits, t), reset)
  {
    hide Hits, Touched, Missed, Cache.Valid, Booked, Done, Applied, Result, SlotBooked, Met, Cache.Find, Fetchable;
    var enr := s / BM_BITS_PER_EXT;
    SliceHits(mode, p0, p1, p2, peers, k, s0, s, t, bits, count, c, enr);
    forall i | 0 <= i < |now.exts| && !now.lru.slots[i].Free()
      ensures var e := now.lru.slots[i].number;
        SlotBooked(was, now, i, Hits(mode, p0, peers, k, s0, Clip(bits, t), e),
                   Ignored(was.lru, mode, p0, peers, k, s0, Clip(bits, t), e),
                   !mode.SetOutOfSync? && Missed(was.lru, p0, peers, k, s0, Clip(bits, t), e), mode, reset)
    {
      var e := now.lru.slots[i].number;
      SliceHits(mode, p0, p1, p2, peers, k, s0, s, t, bits, count, c, e);
      if e == enr {
        OwnSlot(was, mid, now, mode, p0, peers, k, s0, s, t, bits, c, reset, i);
      } else {
        assert !mid.lru.slots[i].Free();
        if e < enr {
          SameMissed(was.lru, p0, peers, k, s0, s, t, bits, e);
        }
        OtherSlot(was, mid, now, i, Hits(mode, p0, peers, k, s0, LastDone(bits, s), e),
                  Ignored(was.lru, mode, p0, peers, k, s0, LastDone(bits, s), e),
                  !mode.SetOutOfSync? && Missed(was.lru, p0, peers, k, s0, LastDone(bits, s), e),
                  Ignored(was.lru, mode, p0, peers, k, s0, Clip(bits, t), e),
                  !mode.SetOutOfSync? && Missed(was.lru, p0, peers, k, s0, Clip(bits, t), e), mode, reset);
      }
    }
    if now.lru.slots != was.lru.slots {
      RecyclesMore(was, mid, now, mode, p0, peers, k, s0, s, t, bits, c);
    }
  }

  lemma OtherSlot(was: Peer, mid: Peer, now: Peer, i: nat, n: int, ignored: bool, missed: bool, ignored': bool,
                  missed': bool, mode: Mode, reset: bool)
    requires |now.exts| == |mid.exts| == |was.exts| == |now.lru.slots| == |mid.lru.slots| == |was.lru.slots|
    requires i < |now.exts| && now.lru.slots[i] == mid.lru.slots[i] && now.exts[i] == mid.exts[i]
    requires n == 0 || (ignored == ignored' && missed == missed')
    requires SlotBooked(was, mid, i, n, ignored, missed, mode, reset)
    ensures SlotBooked(was, now, i, n, ignored', missed', mode, reset)
  {
    hide Booked, Cache.Find;
  }

  lemma RecyclesMore(was: Peer, mid: Peer, now: Peer, mode: Mode, p0: seq<Page>, peers: nat, k: nat, s0: nat, s: nat,
                     t: nat, bits: nat, c: int)
    requires s0 <= s <= t && (s == s0 || s % BM_BITS_PER_EXT == 0) && s / BM_BITS_PER_EXT == t / BM_BITS_PER_EXT
    requires c == Hits(mode, p0, peers, k, s0, Clip(bits, t), s / BM_BITS_PER_EXT)
    requires mid.lru.slots == was.lru.slots || Recycles(was.lru, mode, p0, peers, k, s0, LastDone(bits, s))
    requires if mode.SetOutOfSync? then now.lru == mid.lru
             else if c == 0 then now == mid else Looked(mid, now, s / BM_BITS_PER_EXT)
    requires now.lru.slots != was.lru.slots
    ensures Recycles(was.lru, mode, p0, peers, k, s0, Clip(bits, t))
  {
    hide Touched, Cache.Find, Hits;
    var enr := s / BM_BITS_PER_EXT;
    if mid.lru.slots == was.lru.slots {
      SameFind(was.lru, mid.lru, enr);
      SliceTouched(mode, p0, peers, k, s0, s, t, bits, c);
      TouchedMore(p0, peers, k, s0, s, t, bits, enr);
    } else {
      var e :| was.lru.Find(e, false).None? && Touched(p0, peers, k, s0, LastDone(bits, s), e);
      TouchedMore(p0, peers, k, s0, s, t, bits, e);
    }
  }

  /** After each slice, the last extent with a set bit is cached if it could be. */
  lemma SliceCached(was: Peer, mid: Peer, now: Peer, mode: Mode, p0: seq<Page>, peers: nat, k: nat, s0: nat, s: nat,
                    t: nat, bits: nat, c: int)
    requires s0 <= s <= t && (s == s0 || s % BM_BITS_PER_EXT == 0) && s / BM_BITS_PER_EXT == t / BM_BITS_PER_EXT
    requires c == Hits(mode, p0, peers, k, s0, Clip(bits, t), s / BM_BITS_PER_EXT) && !mode.SetOutOfSync?
    requires ShownBy(was, mid, p0, peers, k, s0, LastDone(bits, s)) && Kept(was, mid)
    requires LastCached(was, mid, mode, p0, peers, k, s0, LastDone(bits, s))
    requires if c == 0 then now == mid else Looked(mid, now, s / BM_BITS_PER_EXT)
    ensures LastCached(was, now, mode, p0, peers, k, s0, Clip(bits, t))
  {
    hide Touched, Cache.Find, Hits, Missed;
    var enr := s / BM_BITS_PER_EXT;
    SliceTouched(mode, p0, peers, k, s0, s, t, bits, c);
    forall e': nat
      ensures Touched(p0, peers, k, s0, Clip(bits, t), e') <==>
                || Touched(p0, peers, k, s0, LastDone(bits, s), e')
                || (e' == enr && c != 0)
      ensures Touched(p0, peers, k, s0, LastDone(bits, s), e') ==> e' < enr
      ensures e' <= enr ==> (Missed(was.lru, p0, peers, k, s0, Clip(bits, t), e') <==>
                               Missed(was.lru, p0, peers, k, s0, LastDone(bits, s), e'))
    {
      TouchedMore(p0, peers, k, s0, s, t, bits, e');
      if e' <= enr {
        SameMissed(was.lru, p0, peers, k, s0, s, t, bits, e');
      }
    }
    if c != 0 {
      KeptUnused(was, mid);
      SameMissed(was.lru, p0, peers, k, s0, s, t, bits, enr);
      if mid.lru.slots == was.lru.slots {
        SameFind(was.lru, mid.lru, enr);
      }
    }
  }

  lemma NothingBooked(was: Peer, mode: Mode, p0: seq<Page>, peers: nat, k: nat, s0: nat, last: int, reset: bool)
    requires last < s0 && |was.exts| == |was.lru.slots|
    ensures Account(was, was, mode, p0, peers, k, s0, last, reset) && LastCached(was, was, mode, p0, peers, k, s0, last)
  {
  }

  lemma AllBooked(was: Peer, now: Peer, mode: Mode, p0: seq<Page>, peers: nat, k: nat, s0: nat, last: int, end: int,
                  reset: bool)
    requires last == end || (last < s0 && end < s0 && now == was && |was.exts| == |was.lru.slots|)
    requires Account(was, now, mode, p0, peers, k, s0, last, reset)
    requires mode.SetOutOfSync? || LastCached(was, now, mode, p0, peers, k, s0, last)
    ensures Account(was, now, mode, p0, peers, k, s0, end, reset)
    ensures mode.SetOutOfSync? || LastCached(was, now, mode, p0, peers, k, s0, end)
  {
    if last != end {
      NothingBooked(was, mode, p0, peers, k, s0, end, reset);
    }
  }
}

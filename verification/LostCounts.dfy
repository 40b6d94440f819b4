/** When marking bits in sync leaves a cached count stale: a lookup that a starving resync cache refuses. */
module LostCounts {
  import opened BitmapStore
  import opened BitmapOps
  import opened BitmapScan
  import opened LruCache
  import opened ResyncLock
  import opened SyncCounts

  /** A set or clear returns a positive count exactly when some bit in its range had the other value. */
  lemma ChangedBits(op: Op, p0: seq<Page>, p1: seq<Page>, peers: nat, k: nat, s: nat, e: int, end0: nat)
    requires (op.Set? || op.Clear?) && Applied(op, p0, p1, peers, k, s, e, [])
    ensures Result(op, p0, p1, peers, k, s, e, end0) >= 0
    ensures Result(op, p0, p1, peers, k, s, e, end0) > 0 <==>
              exists b: nat :: s <= b <= e && BitAt(p0, peers, k, b) != op.Set?
  {
    hide BitAt;
    if s <= e {
      CountRangeConst(p1, peers, k, s, e + 1, op.Set?);
      if forall b: nat :: s <= b <= e ==> BitAt(p0, peers, k, b) == op.Set? {
        CountRangeConst(p0, peers, k, s, e + 1, op.Set?);
      } else {
        var b: nat :| s <= b <= e && BitAt(p0, peers, k, b) != op.Set?;
        CountRangeSplit(p0, peers, k, s, b, e + 1);
        CountRangeSplit(p0, peers, k, b, b + 1, e + 1);
        CountRangeBound(p0, peers, k, s, b);
        CountRangeBound(p0, peers, k, b + 1, e + 1);
        OneBit(p0, peers, k, b);
      }
    }
  }

  lemma OneBit(p: seq<Page>, peers: nat, k: nat, b: nat)
    ensures CountRange(p, peers, k, b, b + 1) == if BitAt(p, peers, k, b) then 1 else 0
  {
  }

  /** Resync extent `e` holds a set bit of peer `k` in `s..last`. */
  ghost predicate Touched(pages: seq<Page>, peers: nat, k: nat, s: nat, last: int, e: nat) {
    exists b: nat :: s <= b <= last && b / BM_BITS_PER_EXT == e && BitAt(pages, peers, k, b)
  }

  /** Every slot of the cache is referenced, so that a miss cannot be served and leaves it starving. */
  predicate Exhausted(lru: Cache) {
    !lru.locked && !lru.UnusedAvailable()
  }

  /** After clearing `s..last` the cache is starving: it was before, or some extent with a bit to clear was missed. */
  ghost predicate Starved(lru: Cache, pages: seq<Page>, peers: nat, k: nat, s: nat, last: int) {
    lru.starving || (Exhausted(lru) && exists e :: lru.Find(e, false).None? && Touched(pages, peers, k, s, last, e))
  }

  /**
   * Clearing the bits `s..last` will lose the update of a cached count: the cache holds an extent with a bit to
   * clear, and is starving, or all its slots are referenced and an earlier extent with a bit to clear is not cached.
   */
  ghost predicate Loses(lru: Cache, pages: seq<Page>, peers: nat, k: nat, s: nat, last: int) {
    exists e :: lru.Find(e, false).Some? && Touched(pages, peers, k, s, last, e)
                && (lru.starving || (Exhausted(lru) && Missed(lru, pages, peers, k, s, last, e)))
  }

  ghost predicate Missed(lru: Cache, pages: seq<Page>, peers: nat, k: nat, s: nat, last: int, e: nat) {
    exists e': nat :: e' < e && lru.Find(e', false).None? && Touched(pages, peers, k, s, last, e')
  }

  /** A cached count of some extent before `below` is not the extent's weight. */
  ghost predicate Stale(peer: Peer, pages: seq<Page>, peers: nat, k: nat, bits: nat, below: nat) {
    exists i :: 0 <= i < |peer.exts| && i < |peer.lru.slots| && !peer.lru.slots[i].Free()
                && peer.lru.slots[i].number < below
                && peer.exts[i].rsLeft != ExtWeight(pages, peers, k, bits, peer.lru.slots[i].number)
  }

  lemma StaleIsWrong(peer: Peer, pages: seq<Page>, peers: nat, k: nat, bits: nat, below: nat)
    requires Stale(peer, pages, peers, k, bits, below)
    ensures !CountsRight(peer, pages, peers, k, bits)
  {
    hide ExtWeight;
  }

  /** A count that is owed an update and does not get it is stale. */
  lemma OwedIsStale(peer: Peer, pages: seq<Page>, peers: nat, k: nat, bits: nat, enr: nat, owed: map<nat, int>)
    requires CountsOwed(peer.lru, peer.exts, pages, peers, k, bits, owed)
    requires Owed(owed, enr) != 0 && peer.lru.Find(enr, false).Some?
    ensures Stale(peer, pages, peers, k, bits, enr + 1)
  {
    hide ExtWeight;
    var i := peer.lru.Find(enr, false).value;
    assert exists j :: j == i && 0 <= j < |peer.exts| && peer.exts[j].rsLeft != ExtWeight(pages, peers, k, bits, enr);
  }

  /** Clearing bits of later extents leaves a stale count stale. */
  lemma StaysStale(peer: Peer, p0: seq<Page>, p1: seq<Page>, peers: nat, k: nat, bits: nat, s: nat, t: nat)
    requires Stale(peer, p0, peers, k, bits, s / BM_BITS_PER_EXT)
    requires Applied(Clear, p0, p1, peers, k, s, Clip(bits, t), []) && s <= t
    requires s / BM_BITS_PER_EXT == t / BM_BITS_PER_EXT
    ensures Stale(peer, p1, peers, k, bits, s / BM_BITS_PER_EXT)
  {
    hide ExtWeight, Applied;
    var i :| 0 <= i < |peer.exts| && i < |peer.lru.slots| && !peer.lru.slots[i].Free()
             && peer.lru.slots[i].number < s / BM_BITS_PER_EXT
             && peer.exts[i].rsLeft != ExtWeight(p0, peers, k, bits, peer.lru.slots[i].number);
    ExtWeightChange(SetInSync, p0, p1, peers, k, bits, s, t, peer.lru.slots[i].number);
  }

  /** The slice `s..t` touches its own extent, and no slice before it did. */
  lemma TouchedMore(pages: seq<Page>, peers: nat, k: nat, s0: nat, s: nat, t: nat, bits: nat, e: nat)
    requires s0 <= s <= t && (s == s0 || s % BM_BITS_PER_EXT == 0) && s / BM_BITS_PER_EXT == t / BM_BITS_PER_EXT
    ensures Touched(pages, peers, k, s0, Clip(bits, t), e) <==>
              || Touched(pages, peers, k, s0, LastDone(bits, s), e)
              || (e == s / BM_BITS_PER_EXT && Touched(pages, peers, k, s, Clip(bits, t), e))
    ensures Touched(pages, peers, k, s0, LastDone(bits, s), e) ==> e < s / BM_BITS_PER_EXT
  {
    hide BitAt;
    if b: nat :| s0 <= b <= Clip(bits, t) && b / BM_BITS_PER_EXT == e && BitAt(pages, peers, k, b) {
      if b < s {
        assert s0 <= b <= LastDone(bits, s);
      } else {
        assert s <= b <= t;
      }
    }
    if b: nat :| s0 <= b <= LastDone(bits, s) && b / BM_BITS_PER_EXT == e && BitAt(pages, peers, k, b) {
      assert s0 <= b <= Clip(bits, t);
    }
  }

  /** What one slice adds to what may be lost; `now` is the cache the slice meets. */
  lemma LossStep(lru: Cache, now: Cache, pages: seq<Page>, peers: nat, k: nat, s0: nat, s: nat, t: nat, bits: nat)
    requires s0 <= s <= t && (s == s0 || s % BM_BITS_PER_EXT == 0) && s / BM_BITS_PER_EXT == t / BM_BITS_PER_EXT
    requires now.starving <==> Starved(lru, pages, peers, k, s0, LastDone(bits, s))
    requires lru.starving || !lru.UnusedAvailable() ==> now.slots == lru.slots
    ensures var enr := s / BM_BITS_PER_EXT;
      var hit := Touched(pages, peers, k, s, Clip(bits, t), enr);
      && (Loses(lru, pages, peers, k, s0, Clip(bits, t)) <==>
            Loses(lru, pages, peers, k, s0, LastDone(bits, s)) || (hit && now.starving && now.Find(enr, false).Some?))
      && (Starved(lru, pages, peers, k, s0, Clip(bits, t)) <==>
            now.starving || (hit && now.Find(enr, false).None? && Exhausted(lru)))
  {
    hide Touched, Cache.Find;
    var enr := s / BM_BITS_PER_EXT;
    forall e: nat
      ensures Touched(pages, peers, k, s0, Clip(bits, t), e) <==>
                || Touched(pages, peers, k, s0, LastDone(bits, s), e)
                || (e == enr && Touched(pages, peers, k, s, Clip(bits, t), e))
      ensures Touched(pages, peers, k, s0, LastDone(bits, s), e) ==> e < enr
    {
      TouchedMore(pages, peers, k, s0, s, t, bits, e);
    }
    if now.slots == lru.slots {
      SameFind(lru, now, enr);
    }
  }

  /** Nothing is lost where there are no bits. */
  lemma NoLossYet(lru: Cache, pages: seq<Page>, peers: nat, k: nat, s: nat, last: int)
    requires last < s
    ensures !Loses(lru, pages, peers, k, s, last)
    ensures Starved(lru, pages, peers, k, s, last) <==> lru.starving
  {
  }

  /** The cache after working through the bits up to `last`: whether it is starving; a full one kept its slots. */
  ghost predicate ShownBy(was: Peer, now: Peer, pages: seq<Page>, peers: nat, k: nat, s: nat, last: int) {
    && (now.lru.starving <==> Starved(was.lru, pages, peers, k, s, last))
    && (was.lru.starving || was.lru.locked || !was.lru.UnusedAvailable() ==> now.lru.slots == was.lru.slots)
  }

  /** One slice: the cache goes from `mid` to `now`, and an update is lost if `mid` refuses a cached extent. */
  lemma SliceLoss(was: Peer, mid: Peer, now: Peer, p0: seq<Page>, peers: nat, k: nat, s0: nat, s: nat, t: nat,
                  bits: nat, hit: bool)
    requires s0 <= s <= t && (s == s0 || s % BM_BITS_PER_EXT == 0) && s / BM_BITS_PER_EXT == t / BM_BITS_PER_EXT
    requires ShownBy(was, mid, p0, peers, k, s0, LastDone(bits, s)) && Kept(was, mid)
    requires hit <==> Touched(p0, peers, k, s, Clip(bits, t), s / BM_BITS_PER_EXT)
    requires if hit then Looked(mid, now, s / BM_BITS_PER_EXT) else now == mid
    ensures ShownBy(was, now, p0, peers, k, s0, Clip(bits, t))
    ensures Loses(was.lru, p0, peers, k, s0, Clip(bits, t)) <==>
              || Loses(was.lru, p0, peers, k, s0, LastDone(bits, s))
              || (hit && mid.lru.starving && mid.lru.Find(s / BM_BITS_PER_EXT, false).Some?)
    ensures Loses(was.lru, p0, peers, k, s0, LastDone(bits, s)) ==> mid.lru.starving && now == mid
  {
    hide Touched, Cache.Find, Fetchable;
    KeptUnused(was, mid);
    LossStep(was.lru, mid.lru, p0, peers, k, s0, s, t, bits);
  }

  lemma StaleMore(peer: Peer, pages: seq<Page>, peers: nat, k: nat, bits: nat, below: nat, above: nat)
    requires Stale(peer, pages, peers, k, bits, below) && below <= above
    ensures Stale(peer, pages, peers, k, bits, above)
  {
    hide ExtWeight;
  }

  /** The counts are right, or one before extent `below` is stale because an update up to bit `last` was lost. */
  ghost predicate Accurate(was: Peer, now: Peer, p0: seq<Page>, pages: seq<Page>, peers: nat, k: nat, bits: nat,
                           s0: nat, last: int, below: nat) {
    if Loses(was.lru, p0, peers, k, s0, last) then Stale(now, pages, peers, k, bits, below)
    else CountsRight(now, pages, peers, k, bits)
  }

  /** Each slice keeps the account of what was lost. */
  lemma SliceAccurate(was: Peer, mid: Peer, now: Peer, p0: seq<Page>, p1: seq<Page>, p2: seq<Page>, peers: nat, k: nat,
                      s0: nat, s: nat, t: nat, bits: nat, c: int, below: nat)
    requires s0 <= s <= t && (s == s0 || s % BM_BITS_PER_EXT == 0) && s / BM_BITS_PER_EXT == t / BM_BITS_PER_EXT < below
    requires Applied(Clear, p1, p2, peers, k, s, Clip(bits, t), [])
    requires ShownBy(was, mid, p0, peers, k, s0, LastDone(bits, s)) && Kept(was, mid)
    requires c != 0 <==> Touched(p0, peers, k, s, Clip(bits, t), s / BM_BITS_PER_EXT)
    requires if c == 0 then now == mid else Looked(mid, now, s / BM_BITS_PER_EXT)
    requires Accurate(was, mid, p0, p1, peers, k, bits, s0, LastDone(bits, s), s / BM_BITS_PER_EXT)
    requires CountsRight(mid, p1, peers, k, bits) ==>
               if c != 0 && mid.lru.starving && mid.lru.Find(s / BM_BITS_PER_EXT, false).Some?
               then Stale(now, p2, peers, k, bits, s / BM_BITS_PER_EXT + 1)
               else CountsRight(now, p2, peers, k, bits)
    ensures Accurate(was, now, p0, p2, peers, k, bits, s0, Clip(bits, t), below)
  {
    hide Loses, Stale, CountsRight, Kept, Looked, Touched, Applied, Cache.Find, ShownBy;
    var enr := s / BM_BITS_PER_EXT;
    SliceLoss(was, mid, now, p0, peers, k, s0, s, t, bits, c != 0);
    if Loses(was.lru, p0, peers, k, s0, LastDone(bits, s)) {
      StaysStale(mid, p1, p2, peers, k, bits, s, t);
      StaleMore(mid, p2, peers, k, bits, enr, below);
    } else if Loses(was.lru, p0, peers, k, s0, Clip(bits, t)) {
      StaleMore(now, p2, peers, k, bits, enr + 1, below);
    }
  }

  lemma NothingLost(was: Peer, p0: seq<Page>, peers: nat, k: nat, bits: nat, s0: nat, last: int)
    requires last < s0
    ensures ShownBy(was, was, p0, peers, k, s0, last)
    ensures CountsRight(was, p0, peers, k, bits) ==>
              forall below: nat :: Accurate(was, was, p0, p0, peers, k, bits, s0, last, below)
  {
    hide CountsRight;
    NoLossYet(was.lru, p0, peers, k, s0, last);
  }

  lemma AllAccurate(was: Peer, now: Peer, p0: seq<Page>, pages: seq<Page>, peers: nat, k: nat, bits: nat, s0: nat,
                    last: int, end: int)
    requires Accurate(was, now, p0, pages, peers, k, bits, s0, last, LC_FREE)
    requires (last == end || (last < s0 && end < s0))
    ensures CountsRight(now, pages, peers, k, bits) <==> !Loses(was.lru, p0, peers, k, s0, end)
  {
    hide Stale, CountsRight;
    if last != end {
      NoLossYet(was.lru, p0, peers, k, s0, last);
      NoLossYet(was.lru, p0, peers, k, s0, end);
    }
    if Stale(now, pages, peers, k, bits, LC_FREE) {
      StaleIsWrong(now, pages, peers, k, bits, LC_FREE);
    }
  }
}

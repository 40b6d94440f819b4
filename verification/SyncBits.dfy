/** Setting and clearing out-of-sync bits of one peer, with its counts kept in step. */
module SyncBits {
  import opened BitmapStore
  import opened BitmapOps
  import opened BitmapScan
  import opened Bitmap
  import opened Options
  import opened LruCache
  import opened ResyncLock
  import opened SyncCounts
  import opened LostCounts
  import opened FailedCounts

  /** Only peer `p` differs. */
  ghost predicate OnlyPeer(was: seq<Peer>, now: seq<Peer>, p: nat) {
    |now| == |was| && forall q :: 0 <= q < |was| && q != p ==> now[q] == was[q]
  }

  lemma ReadyPeer(pb: PeerBits)
    requires pb.Ready()
    ensures Committed(pb.dev.peers[pb.p].lru, pb.dev.peers[pb.p].exts)
    ensures |pb.dev.peers[pb.p].exts| == |pb.dev.peers[pb.p].lru.slots|
  {
    OkIsCommitted(pb.dev.peers[pb.p]);
  }

  /** A peer device: its resync cache in the device, and its slot of the bitmap. */
  class PeerBits {
    const dev: Device
    const p: nat
    const bm: BsrBitmap
    const k: nat

    ghost predicate Ready()
      reads this, dev, bm
    {
      bm.Valid() && k < bm.peers && dev.Inv() && p < |dev.peers|
    }

    /** All cached counts are right. */
    ghost predicate Valid()
      reads this, dev, bm
    {
      Ready() && CountsRight(dev.peers[p], bm.pages, bm.peers, k, bm.bits)
    }

    constructor (dev: Device, p: nat, bm: BsrBitmap, k: nat)
      requires bm.Valid() && k < bm.peers && dev.Inv() && p < |dev.peers|
      requires CountsRight(dev.peers[p], bm.pages, bm.peers, k, bm.bits)
      ensures Valid() && this.dev == dev && this.p == p && this.bm == bm && this.k == k
    {
      this.dev, this.p, this.bm, this.k := dev, p, bm, k;
    }

    /** Every cached count is right but for the updates that are outstanding. */
    ghost predicate Owing(owed: map<nat, int>)
      reads this, dev, bm
    {
      Ready() && CountsOwed(dev.peers[p].lru, dev.peers[p].exts, bm.pages, bm.peers, k, bm.bits, owed)
    }

    /** `update_rs_extent` for bits that were set: an extent that is not cached needs no update. */
    method UpdateIfCached(enr: nat, count: int, resetFailed: bool, ghost owed: map<nat, int>)
      returns (cleared: bool, ghost slot: Option<nat>)
      requires Ready() && enr != LC_FREE && count > 0
      modifies dev`peers
      ensures Ready() && OnlyPeer(old(dev.peers), dev.peers, p) && Kept(old(dev.peers[p]), dev.peers[p])
      ensures dev.peers[p].lru == old(dev.peers[p].lru) && slot == old(dev.peers[p].lru).Find(enr, false)
      ensures Tallied(dev.peers[p].lru, dev.peers[p].exts, enr, slot,
                      FailedCount(old(dev.peers[p].lru), old(dev.peers[p].exts), enr, SetOutOfSync, count),
                      resetFailed, cleared)
      ensures Sliced(old(dev.peers[p]), dev.peers[p], enr, count, SetOutOfSync, resetFailed)
      ensures old(Owing(owed)) ==>
                (Owing(Paid(owed, enr, -count))
                 <==> Pays(old(dev.peers[p].lru), old(dev.peers[p].exts), owed, enr, SetOutOfSync, count))
    {
      hide ExtWeight, Kept, Excluded, Peer.Ok, BsrBitmap.Valid, CountsOwed, Pays, Paid, Cache.Find, Cache.Valid, Sliced;
      var peer := dev.peers[p];
      OkIsCommitted(peer);
      KeptRefl(peer);
      var e := peer.lru.Find(enr, false);
      slot := e;
      if e.None? {
        if Owing(owed) {
          NotCachedPays(peer, enr, count, bm.pages, bm.peers, k, bm.bits, owed);
        }
        SlicedNot(peer, peer, enr, count, SetOutOfSync, resetFailed);
        return false, None;
      }
      var ext := peer.exts[e.value].(rsLeft := peer.exts[e.value].rsLeft + count);
      if ext.rsLeft < ext.rsFailed {
        ext := ext.(rsLeft := ExtWeight(bm.pages, bm.peers, k, bm.bits, enr));
      }
      cleared := ext.rsLeft <= ext.rsFailed;
      if cleared && resetFailed {
        ext := ext.(rsFailed := 0);
      }
      if Owing(owed) {
        AddedPays(peer, enr, e.value, count, ext, bm.pages, bm.peers, k, bm.bits, owed);
      }
      CountsOk(peer, dev.al, e.value, ext);
      dev.peers := dev.peers[p := peer.(exts := peer.exts[e.value := ext])];
      SlicedAt(peer, dev.peers[p], enr, e.value, count, SetOutOfSync, resetFailed, cleared);
    }

    /** The counts of an extent that was cached already, or has just been pulled in. */
    static method Recount(was: Ext, cached: bool, count: int, mode: Mode, weight: int, resetFailed: bool)
      returns (ext: Ext, cleared: bool)
      requires !mode.SetOutOfSync?
      ensures Recounting(was, cached, count, mode, weight, resetFailed, ext, cleared)
    {
      ext := was;
      if cached {
        if mode.SetInSync? {
          ext := ext.(rsLeft := ext.rsLeft - count);
        } else {
          ext := ext.(rsFailed := ext.rsFailed + count);
        }
        if ext.rsLeft < ext.rsFailed {
          ext := ext.(rsLeft := weight);
        }
      } else {
        ext := ext.NoFlags().(rsLeft := weight, rsFailed := if mode.RecordRsFailed? then count else 0);
      }
      cleared := ext.rsLeft <= ext.rsFailed;
      if cleared && resetFailed {
        ext := ext.(rsFailed := 0);
      }
    }

    /** The lookup that pulls the extent into the cache, with its new counts. */
    static method Fetch(peer: Peer, ghost al: Cache, enr: nat, count: int, mode: Mode, resetFailed: bool,
                        pages: seq<Page>, peers: nat, k: nat, bits: nat,
                        ghost owed: map<nat, int>) returns (q: Peer, cleared: bool, slot: Option<nat>)
      requires peer.Ok() && Excluded(peer, al) && enr != LC_FREE && count > 0 && !mode.SetOutOfSync?
      ensures q.Ok() && Excluded(q, al) && Kept(peer, q) && Looked(peer, q, enr)
      ensures (slot.Some? <==> Fetchable(peer.lru, enr))
      ensures Tallied(q.lru, q.exts, enr, slot, FailedCount(peer.lru, peer.exts, enr, mode, count), resetFailed,
                      cleared)
      ensures Sliced(peer, q, enr, count, mode, resetFailed)
      ensures CountsOwed(peer.lru, peer.exts, pages, peers, k, bits, owed) ==>
                (CountsOwed(q.lru, q.exts, pages, peers, k, bits, Paid(owed, enr, Off(mode, count)))
                 <==> Pays(peer.lru, peer.exts, owed, enr, mode, count))
    {
      hide ExtWeight, Kept, Excluded, Peer.Ok, Cache.Get, Cache.Find, Cache.Put, Cache.Committed, Fetchable, Looked,
        CountsOwed, FailedCount, Cache.Valid, Pays, Owed, Recounting, Sliced, Tallied;
      OkIsCommitted(peer);
      ghost var paid := Paid(owed, enr, Off(mode, count));
      PaidOnly(owed, enr, Off(mode, count));
      var weight: int := ExtWeight(pages, peers, k, bits, enr);
      var victim := PickVictim(peer.lru);
      FetchParts(peer.lru, enr, victim);
      FetchIs(peer.lru, enr, victim);
      var (c, e) := peer.lru.Get(enr, true, false, victim);
      if e.None? {
        StarvingOk(peer, al, c);
        Refused(peer, enr, c, pages, peers, k, bits, owed, paid);
        RefusedPays(peer.lru, peer.exts, owed, enr, mode, count);
        q, cleared, slot := peer.(lru := c), false, None;
        SlicedNot(peer, q, enr, count, mode, resetFailed);
        TalliedNone(q.lru, q.exts, enr, FailedCount(peer.lru, peer.exts, enr, mode, count), resetFailed);
        return;
      }
      var i := e.value;
      slot := e;
      var cached := c.slots[i].number == enr;
      var ext;
      ext, cleared := Recount(peer.exts[i], cached, count, mode, weight, resetFailed);
      if cached {
        FoundAt(peer.lru, peer.exts, enr, i);
      } else {
        c := c.Committed();
      }
      RecountingParts(peer.exts[i], cached, count, mode, weight, resetFailed, ext, cleared);
      Fetched(peer, al, c.Put(i), enr, i, ext, pages, peers, k, bits, owed, paid);
      RecountingPays(peer, c.Put(i), enr, i, count, mode, resetFailed, ext, cleared, pages, peers, k, bits, owed);
      q := peer.(lru := c.Put(i), exts := peer.exts[i := ext]);
      OkIsCommitted(q);
      SlicedAt(peer, q, enr, i, count, mode, resetFailed, cleared);
    }

    /** `update_rs_extent` for bits that were cleared or failed. */
    method UpdateFetched(enr: nat, count: int, mode: Mode, resetFailed: bool, ghost owed: map<nat, int>)
      returns (cleared: bool, ghost slot: Option<nat>)
      requires Ready() && enr != LC_FREE && count > 0 && !mode.SetOutOfSync?
      modifies dev`peers
      ensures Ready() && OnlyPeer(old(dev.peers), dev.peers, p) && Kept(old(dev.peers[p]), dev.peers[p])
      ensures Looked(old(dev.peers[p]), dev.peers[p], enr) && (slot.Some? <==> Fetchable(old(dev.peers[p].lru), enr))
      ensures Tallied(dev.peers[p].lru, dev.peers[p].exts, enr, slot,
                      FailedCount(old(dev.peers[p].lru), old(dev.peers[p].exts), enr, mode, count),
                      resetFailed, cleared)
      ensures Sliced(old(dev.peers[p]), dev.peers[p], enr, count, mode, resetFailed)
      ensures old(Owing(owed)) ==>
                (Owing(Paid(owed, enr, Off(mode, count)))
                 <==> Pays(old(dev.peers[p].lru), old(dev.peers[p].exts), owed, enr, mode, count))
    {
      hide ExtWeight, Kept, Excluded, Peer.Ok, BsrBitmap.Valid, Fetchable, Looked, CountsOwed, FailedCount, Pays,
        Tallied, Sliced;
      var q;
      q, cleared, slot := Fetch(dev.peers[p], dev.al, enr, count, mode, resetFailed, bm.pages, bm.peers, k, bm.bits,
                                owed);
      dev.peers := dev.peers[p := q];
    }

    /**
     * `update_rs_extent`, after `count` bits of resync extent `enr` have been changed. `resetFailed` stands for
     * the role checks. Locks and references stay. With `owed` the changes of bits whose updates are outstanding,
     * this one among them, the counts stay right but for the others exactly if the update pays.
     */
    method UpdateRsExtent(enr: nat, count: int, mode: Mode, resetFailed: bool, ghost owed: map<nat, int>)
      returns (cleared: bool, ghost slot: Option<nat>)
      requires Ready() && enr != LC_FREE && count > 0
      modifies dev`peers
      ensures Ready() && OnlyPeer(old(dev.peers), dev.peers, p) && Kept(old(dev.peers[p]), dev.peers[p])
      ensures slot.Some? <==> if mode.SetOutOfSync? then old(dev.peers[p].lru).Find(enr, false).Some?
                              else Fetchable(old(dev.peers[p].lru), enr)
      ensures if mode.SetOutOfSync? then dev.peers[p].lru == old(dev.peers[p].lru)
              else Looked(old(dev.peers[p]), dev.peers[p], enr)
      ensures Tallied(dev.peers[p].lru, dev.peers[p].exts, enr, slot,
                      FailedCount(old(dev.peers[p].lru), old(dev.peers[p].exts), enr, mode, count),
                      resetFailed, cleared)
      ensures Sliced(old(dev.peers[p]), dev.peers[p], enr, count, mode, resetFailed)
      ensures old(Owing(owed)) ==>
                (Owing(Paid(owed, enr, Off(mode, count)))
                 <==> Pays(old(dev.peers[p].lru), old(dev.peers[p].exts), owed, enr, mode, count))
    {
      hide ExtWeight, CountsOwed, Tallied, Kept, Looked, Fetchable, Cache.Find, OnlyPeer, BsrBitmap.Valid, FailedCount,
        Pays, Paid, Sliced;
      if mode.SetOutOfSync? {
        cleared, slot := UpdateIfCached(enr, count, resetFailed, owed);
      } else {
        cleared, slot := UpdateFetched(enr, count, mode, resetFailed, owed);
      }
    }

    /** The bits of a slice change, which is then owed to the count of their extent. */
    method ChangeBits(s: nat, t: nat, mode: Mode, ghost owed: map<nat, int>) returns (c: int)
      requires Ready() && s <= t && s / BM_BITS_PER_EXT == t / BM_BITS_PER_EXT
      modifies bm`pages, bm`needWriteout, bm`lazyWriteout, bm`bmSet
      ensures Ready() && c >= 0 && Applied(mode.Op(), old(bm.pages), bm.pages, bm.peers, k, s, Clip(bm.bits, t), [])
      ensures mode.RecordRsFailed? ==> bm.pages == old(bm.pages)
      ensures c == Result(mode.Op(), old(bm.pages), bm.pages, bm.peers, k, s, Clip(bm.bits, t), t)
      ensures old(Owing(owed)) ==> Owing(Paid(owed, s / BM_BITS_PER_EXT, -Off(mode, c)))
    {
      hide ExtWeight, Applied, Result, CountsOwed, Peer.Ok, Excluded, BsrBitmap.Valid;
      var out;
      c, out := bm.Apply(mode.Op(), k, s, t, []);
      ResultNat(mode.Op(), old(bm.pages), bm.pages, bm.peers, k, s, Clip(bm.bits, t), t);
      if old(Owing(owed)) {
        SliceCounts(mode, dev.peers[p].lru, dev.peers[p].exts, old(bm.pages), bm.pages, bm.peers, k, bm.bits, s, t,
                    owed);
      }
    }

    /** One turn of the loop of `update_sync_bits`: bits `s..t` within one resync extent. */
    method UpdateSlice(s: nat, t: nat, mode: Mode, resetFailed: bool) returns (c: int)
      requires Ready() && s <= t && s / BM_BITS_PER_EXT == t / BM_BITS_PER_EXT < LC_FREE
      modifies dev`peers, bm`pages, bm`needWriteout, bm`lazyWriteout, bm`bmSet
      ensures Ready() && OnlyPeer(old(dev.peers), dev.peers, p) && Kept(old(dev.peers[p]), dev.peers[p])
      ensures Applied(mode.Op(), old(bm.pages), bm.pages, bm.peers, k, s, Clip(bm.bits, t), [])
      ensures mode.RecordRsFailed? ==> bm.pages == old(bm.pages)
      ensures c == Result(mode.Op(), old(bm.pages), bm.pages, bm.peers, k, s, Clip(bm.bits, t), t)
      ensures if mode.SetOutOfSync? then dev.peers[p].lru == old(dev.peers[p].lru)
              else if c == 0 then dev.peers == old(dev.peers)
              else Looked(old(dev.peers[p]), dev.peers[p], s / BM_BITS_PER_EXT)
      ensures Sliced(old(dev.peers[p]), dev.peers[p], s / BM_BITS_PER_EXT, c, mode, resetFailed)
      ensures old(Valid()) ==>
                if mode.SetInSync? && c != 0 && old(dev.peers[p].lru).starving
                   && old(dev.peers[p].lru).Find(s / BM_BITS_PER_EXT, false).Some?
                then Stale(dev.peers[p], bm.pages, bm.peers, k, bm.bits, s / BM_BITS_PER_EXT + 1)
                else Valid()
    {
      hide ExtWeight, Applied, Result, CountsOwed, Cache.Find, Kept, Tallied, Stale, FailedCount, Pays, Looked,
        Fetchable, Peer.Ok, Excluded, BsrBitmap.Valid, Sliced;
      var enr := s / BM_BITS_PER_EXT;
      ghost var peer := dev.peers[p];
      c := ChangeBits(s, t, mode, map[]);
      ghost var owed := Paid(map[], enr, -Off(mode, c));
      if old(Valid()) {
        if c == 0 {
          NothingOwed(peer.lru, peer.exts, bm.pages, bm.peers, k, bm.bits, owed);
        } else if mode.SetInSync? && peer.lru.Find(enr, false).Some? {
          OwedIsStale(peer, bm.pages, bm.peers, k, bm.bits, enr, owed);
        }
      }
      if c != 0 {
        var cleared;
        ghost var slot;
        OkIsCommitted(peer);
        LastPays(peer.lru, peer.exts, enr, mode, c);
        cleared, slot := UpdateRsExtent(enr, c, mode, resetFailed, owed);
        NothingOwed(dev.peers[p].lru, dev.peers[p].exts, bm.pages, bm.peers, k, bm.bits, Paid(owed, enr, Off(mode, c)));
        if !mode.SetOutOfSync? {
          StarvingLooked(peer, dev.peers[p], enr);
        }
      } else {
        KeptRefl(peer);
        SameSizes(peer);
        SlicedNot(peer, peer, enr, c, mode, resetFailed);
      }
    }

    /**
     * `update_sync_bits`: works in slices of one resync extent, and returns the number of bits changed (or, for
     * failed requests, still set). The cached counts stay right unless bits are cleared and the cache, as it was
     * before the call, will lose an update. Every cached extent is accounted for, with its failed count.
     */
    method UpdateSyncBits(sbnr: nat, ebnr: nat, mode: Mode, resetFailed: bool) returns (count: int)
      requires Ready() && ebnr / BM_BITS_PER_EXT < LC_FREE
      modifies dev`peers, bm`pages, bm`needWriteout, bm`lazyWriteout, bm`bmSet
      ensures Ready() && OnlyPeer(old(dev.peers), dev.peers, p) && Kept(old(dev.peers[p]), dev.peers[p])
      ensures Applied(mode.Op(), old(bm.pages), bm.pages, bm.peers, k, sbnr, Clip(bm.bits, ebnr), [])
      ensures count == Result(mode.Op(), old(bm.pages), bm.pages, bm.peers, k, sbnr, Clip(bm.bits, ebnr), ebnr)
      ensures mode.SetInSync? && sbnr <= ebnr && sbnr / BM_BITS_PER_EXT == ebnr / BM_BITS_PER_EXT ==>
                if count == 0 then dev.peers == old(dev.peers)
                else Looked(old(dev.peers[p]), dev.peers[p], sbnr / BM_BITS_PER_EXT)
      ensures Account(old(dev.peers[p]), dev.peers[p], mode, old(bm.pages), bm.peers, k, sbnr, Clip(bm.bits, ebnr),
                      resetFailed)
      ensures !mode.SetOutOfSync? ==>
                LastCached(old(dev.peers[p]), dev.peers[p], mode, old(bm.pages), bm.peers, k, sbnr, Clip(bm.bits, ebnr))
      ensures old(Valid()) ==>
                (Valid() <==>
                   !(mode.SetInSync?
                     && Loses(old(dev.peers[p].lru), old(bm.pages), bm.peers, k, sbnr, Clip(bm.bits, ebnr))))
    {
      hide ExtWeight, Applied, Result, CountsRight, Cache.Find, Kept, Looked, Stale, Loses, ShownBy, Done,
        BsrBitmap.Valid, Accurate, Touched, Device.Inv, Account, LastCached, Hits, Sliced, Committed, Met;
      count := 0;
      var s := sbnr;
      ghost var peer0, p0 := dev.peers[p], bm.pages;
      NothingYet(mode.Op(), bm.pages, bm.peers, k, sbnr);
      KeptRefl(peer0);
      NothingLost(peer0, p0, bm.peers, k, bm.bits, sbnr, LastDone(bm.bits, sbnr));
      ReadyPeer(this);
      NothingBooked(peer0, mode, p0, bm.peers, k, sbnr, LastDone(bm.bits, sbnr), resetFailed);
      while s <= ebnr
        invariant Ready() && sbnr <= s && (s == sbnr || s <= ebnr + 1)
        invariant (s == sbnr || s > ebnr || s % BM_BITS_PER_EXT == 0)
        invariant OnlyPeer(old(dev.peers), dev.peers, p) && Kept(peer0, dev.peers[p])
        invariant mode.RecordRsFailed? ==> bm.pages == p0
        invariant Done(mode.Op(), p0, bm.pages, bm.peers, k, sbnr, s, bm.bits, count)
        invariant mode.SetInSync? && sbnr / BM_BITS_PER_EXT == ebnr / BM_BITS_PER_EXT ==>
                    if s <= ebnr || count == 0 then dev.peers == old(dev.peers) && count == 0
                    else Looked(peer0, dev.peers[p], sbnr / BM_BITS_PER_EXT)
        invariant !mode.SetOutOfSync? ==> ShownBy(peer0, dev.peers[p], p0, bm.peers, k, sbnr, LastDone(bm.bits, s))
        invariant Account(peer0, dev.peers[p], mode, p0, bm.peers, k, sbnr, LastDone(bm.bits, s), resetFailed)
        invariant !mode.SetOutOfSync? ==>
                    LastCached(peer0, dev.peers[p], mode, p0, bm.peers, k, sbnr, LastDone(bm.bits, s))
        invariant s == sbnr ==> dev.peers[p] == peer0
        invariant old(Valid()) ==>
                    if mode.SetInSync?
                    then Accurate(peer0, dev.peers[p], p0, bm.pages, bm.peers, k, bm.bits, sbnr, LastDone(bm.bits, s),
                                                     if s <= ebnr then s / BM_BITS_PER_EXT else LC_FREE)
                    else Valid()
        decreases ebnr + 1 - s
      {
        var t := if ebnr <= ExtEnd(s) then ebnr else ExtEnd(s);
        SameExt(s, t, ebnr);
        ghost var p1, peer1 := bm.pages, dev.peers[p];
        ReadyPeer(this);
        var c := UpdateSlice(s, t, mode, resetFailed);
        ReadyPeer(this);
        KeptTrans(peer0, peer1, dev.peers[p]);
        DoneMore(mode.Op(), p0, p1, bm.pages, bm.peers, k, sbnr, s, t, bm.bits, count, c);
        NextSlice(s, t, ebnr);
        SliceHits(mode, p0, p1, bm.pages, bm.peers, k, sbnr, s, t, bm.bits, count, c, s / BM_BITS_PER_EXT);
        MetNow(peer0, peer1, mode, p0, bm.peers, k, sbnr, LastDone(bm.bits, s));
        SliceAccount(peer0, peer1, dev.peers[p], mode, p0, p1, bm.pages, bm.peers, k, sbnr, s, t, bm.bits, count, c,
                     resetFailed);
        if !mode.SetOutOfSync? {
          SliceTouched(mode, p0, bm.peers, k, sbnr, s, t, bm.bits, c);
          SliceCached(peer0, peer1, dev.peers[p], mode, p0, bm.peers, k, sbnr, s, t, bm.bits, c);
          SliceLoss(peer0, peer1, dev.peers[p], p0, bm.peers, k, sbnr, s, t, bm.bits, c != 0);
        }
        if mode.SetInSync? && old(Valid()) {
          SliceAccurate(peer0, peer1, dev.peers[p], p0, p1, bm.pages, bm.peers, k, sbnr, s, t, bm.bits, c,
                        if t < ebnr then (t + 1) / BM_BITS_PER_EXT else LC_FREE);
        }
        count, s := count + c, t + 1;
      }
      AllBooked(peer0, dev.peers[p], mode, p0, bm.peers, k, sbnr, LastDone(bm.bits, s), Clip(bm.bits, ebnr),
                resetFailed);
      DoneAll(mode.Op(), p0, bm.pages, bm.peers, k, sbnr, s, ebnr, bm.bits, count);
      if old(Valid()) && mode.SetInSync? {
        AllAccurate(peer0, dev.peers[p], p0, bm.pages, bm.peers, k, bm.bits, sbnr, LastDone(bm.bits, s),
                    Clip(bm.bits, ebnr));
      }
    }

    /**
     * `bsr_try_rs_begin_io` with the weight of the extent it may pull in: the cached counts stay right but for what
     * is owed, unless an update of an extent that is pulled in is outstanding.
     */
    method BeginResync(enr: nat, throttle: bool, ghost owed: map<nat, int>) returns (ok: bool)
      requires Ready() && enr < LC_FREE / AL_EXT_PER_BM_SECT
      modifies dev`peers
      ensures Ready() && OnlyPeer(old(dev.peers), dev.peers, p)
      ensures GrantsGrow(old(dev.peers[p]), dev.peers[p], enr, if ok then 1 else 0)
      ensures old(Owing(owed)) ==>
                (Owing(owed) <==>
                   || Owed(owed, enr) == 0 || old(dev.peers[p]).lru.Find(enr, false).Some?
                   || (throttle && old(dev.peers[p]).wenr != enr) || !Obtainable(Dropped(old(dev.peers[p]), enr), enr))
      ensures old(Valid()) ==> Valid()
    {
      hide ExtWeight, CountsOwed, GrantsGrow, Recounted, BsrBitmap.Valid, Excluded, Cache.Find, Obtainable, Dropped;
      ok := dev.TryRsBeginIo(p, enr, throttle, ExtWeight(bm.pages, bm.peers, k, bm.bits, enr));
      if old(Owing(owed)) {
        RecountedOwed(old(dev.peers[p]), dev.peers[p], enr, bm.pages, bm.peers, k, bm.bits, owed);
      }
      if old(Valid()) {
        RecountedOwed(old(dev.peers[p]), dev.peers[p], enr, bm.pages, bm.peers, k, bm.bits, map[]);
      }
    }

    /** `bsr_rs_complete_io` keeps the cached counts too. */
    method EndResync(enr: nat, ghost owed: map<nat, int>)
      requires Ready() && enr != LC_FREE && enr != dev.peers[p].wenr
      modifies dev`peers
      ensures Ready() && OnlyPeer(old(dev.peers), dev.peers, p)
      ensures GrantsGrow(old(dev.peers[p]), dev.peers[p], enr, if old(dev.peers[p]).Grants(enr) > 0 then -1 else 0)
      ensures old(Owing(owed)) ==> Owing(owed)
    {
      hide ExtWeight, CountsOwed, GrantsGrow, SameCounts, BsrBitmap.Valid, Excluded;
      dev.RsCompleteIo(p, enr);
      if old(Owing(owed)) {
        SameCountsOwed(old(dev.peers[p]), dev.peers[p], bm.pages, bm.peers, k, bm.bits, owed);
      }
    }
  }
}

/** `bsr_set_sync`: one request, several peers' bits. */
module SetSyncAll {
  import opened BitmapStore
  import opened BitmapOps
  import opened BitmapScan
  import opened Bitmap
  import opened LruCache
  import opened ResyncLock
  import opened SyncCounts
  import opened LostCounts
  import opened FailedCounts
  import opened SyncBits
  import opened PeerMask
  import SyncRange
  import BitmapWeight

  /**
   * Bits of all peers after marking the request for the peers in `done`: out of sync those in `bits`, in sync the
   * rest.
   */
  ghost predicate Marked(p0: seq<Page>, p1: seq<Page>, peers: nat, bmBits: nat, done: set<nat>, bits: set<nat>,
                         set': SyncRange.Range, clear: SyncRange.Range) {
    forall q: nat, b: nat :: q < peers && b < bmBits ==>
      BitAt(p1, peers, q, b)
      == if q in done && q in bits && set'.Contains(b) then true
         else if q in done && q !in bits && clear.Contains(b) then false
         else BitAt(p0, peers, q, b)
  }

  /**
   * The same, told by 4 KiB blocks: for a selected peer every block the request touches is out of sync, or every block
   * it covers in sync; all other blocks are as before.
   */
  ghost predicate BlocksMarked(p0: seq<Page>, p1: seq<Page>, peers: nat, bmBits: nat, done: set<nat>, bits: set<nat>,
                               sector: nat, size: nat, capacity: nat) {
    forall q: nat, b: nat :: q < peers ==>
      if q in done && q in bits && SyncRange.Touched(b, sector, size, capacity) then BitAt(p1, peers, q, b)
      else if q in done && q !in bits && SyncRange.Covered(b, sector, size, capacity) then !BitAt(p1, peers, q, b)
      else b < bmBits ==> BitAt(p1, peers, q, b) == BitAt(p0, peers, q, b)
  }

  lemma MarkedBlocks(p0: seq<Page>, p1: seq<Page>, peers: nat, bmBits: nat, done: set<nat>, bits: set<nat>, sector: nat,
                     size: nat, capacity: nat)
    requires Marked(p0, p1, peers, bmBits, done, bits, SyncRange.SetSync(false, sector, size, capacity),
                    SyncRange.SetSync(true, sector, size, capacity))
    requires size > 0 && size % 512 == 0 && sector < capacity && BitmapWeight.OneBitPerBlock(bmBits, capacity)
    ensures BlocksMarked(p0, p1, peers, bmBits, done, bits, sector, size, capacity)
  {
    hide BitAt, SyncRange.SetSync, SyncRange.Touched, SyncRange.Covered;
    forall b: nat
      ensures SyncRange.SetSync(false, sector, size, capacity).Contains(b) <==>
                SyncRange.Touched(b, sector, size, capacity)
      ensures SyncRange.SetSync(true, sector, size, capacity).Contains(b) <==>
                SyncRange.Covered(b, sector, size, capacity)
      ensures SyncRange.Touched(b, sector, size, capacity) || SyncRange.Covered(b, sector, size, capacity) ==>
                b < bmBits
    {
      SyncRange.OutOfSyncExact(b, sector, size, capacity);
      SyncRange.SetSyncClearsCovered(b, sector, size, capacity);
      SyncRange.BlockExists(b, sector, size, capacity);
      assert BitmapWeight.FirstSector(b) == 8 * b;
    }
  }

  /** Some bit of peer `q` in range `r` does not have value `v`. */
  ghost predicate Changes(pages: seq<Page>, peers: nat, q: nat, bits: nat, r: SyncRange.Range, v: bool) {
    exists b: nat :: b < bits && r.Contains(b) && BitAt(pages, peers, q, b) != v
  }

  /** Only peer `q`'s bits in range `r` have changed, to `v`. */
  ghost predicate OnePeer(p0: seq<Page>, p1: seq<Page>, peers: nat, q: nat, bits: nat, r: SyncRange.Range, v: bool) {
    forall k: nat, b: nat :: b < bits ==>
      BitAt(p1, peers, k, b) == if k == q && r.Contains(b) then v else BitAt(p0, peers, k, b)
  }

  /** Marking range `r` in sync will lose the update of a cached count. */
  ghost predicate LosesIn(lru: Cache, pages: seq<Page>, peers: nat, k: nat, bits: nat, r: SyncRange.Range) {
    r.Bits? && Loses(lru, pages, peers, k, r.first, Clip(bits, r.last))
  }

  class SyncDevice {
    const bm: BsrBitmap
    const dev: Device
    /** The peer device that uses each bitmap slot, if there is one. */
    const peerDevs: seq<PeerBits?>

    constructor (bm: BsrBitmap, dev: Device, peerDevs: seq<PeerBits?>)
      ensures this.bm == bm && this.dev == dev && this.peerDevs == peerDevs
    {
      this.bm, this.dev, this.peerDevs := bm, dev, peerDevs;
    }

    ghost predicate Wired() {
      && |peerDevs| == bm.peers
      && (forall k :: 0 <= k < |peerDevs| && peerDevs[k] != null ==>
            peerDevs[k].bm == bm && peerDevs[k].dev == dev && peerDevs[k].k == k)
      && (forall j, k :: 0 <= j < k < |peerDevs| && peerDevs[j] != null && peerDevs[k] != null ==>
            peerDevs[j].p != peerDevs[k].p)
    }

    ghost predicate Ready()
      reads dev, bm
    {
      && Wired() && bm.Valid() && dev.Inv()
      && forall k :: 0 <= k < |peerDevs| && peerDevs[k] != null ==> peerDevs[k].p < |dev.peers|
    }

    /** The cached counts of the peer in slot `k` are right. */
    ghost predicate Right(k: nat)
      reads dev, bm
    {
      k < |peerDevs| && peerDevs[k] != null && peerDevs[k].p < |dev.peers| ==>
        CountsRight(dev.peers[peerDevs[k].p], bm.pages, bm.peers, k, bm.bits)
    }

    /** The resync cache of the peer in slot `k`. */
    ghost function Lru(k: nat): Cache
      requires Ready() && k < |peerDevs| && peerDevs[k] != null
      reads dev, bm
    {
      dev.peers[peerDevs[k].p].lru
    }

    /** One peer's share of the request, through the resync counts if the slot has a peer device. */
    method MarkPeer(q: nat, set': bool, r: SyncRange.Range, resetFailed: bool) returns (n: int)
      requires Ready() && q < |peerDevs| && (r.Bits? ==> r.last / BM_BITS_PER_EXT < LC_FREE)
      modifies dev`peers, bm`pages, bm`needWriteout, bm`lazyWriteout, bm`bmSet
      ensures Ready() && |dev.peers| == |old(dev.peers)|
      ensures forall i :: 0 <= i < |dev.peers| && (peerDevs[q] != null ==> i != peerDevs[q].p) ==>
                dev.peers[i] == old(dev.peers)[i]
      ensures forall k :: 0 <= k < |peerDevs| && k != q ==> (Right(k) <==> old(Right(k)))
      ensures peerDevs[q] != null && old(Right(q)) ==>
                (Right(q) <==> set' || !LosesIn(old(Lru(q)), old(bm.pages), bm.peers, q, bm.bits, r))
      ensures n >= 0 && (n > 0 <==> Changes(old(bm.pages), bm.peers, q, bm.bits, r, set'))
      ensures OnePeer(old(bm.pages), bm.pages, bm.peers, q, bm.bits, r, set')
    {
      hide BitAt, Result, CountsRight, Kept, Loses, BsrBitmap.Valid, Device.Inv, Account, LastCached, Looked,
        CountsOwed, Applied, OnePeer, Changes;
      NoneChanged(bm.pages, bm.peers, q, bm.bits, r, set');
      n := 0;
      if r.NoBits? || r.first > r.last {
        if r.Bits? && peerDevs[q] != null {
          NoLossYet(Lru(q), bm.pages, bm.peers, q, r.first, Clip(bm.bits, r.last));
        }
        return;
      }
      ghost var p0 := bm.pages;
      if peerDevs[q] != null {
        n := peerDevs[q].UpdateSyncBits(r.first, r.last, if set' then SetOutOfSync else SetInSync, resetFailed);
      } else {
        var out;
        n, out := bm.Apply(if set' then Set else Clear, q, r.first, r.last, []);
      }
      var op := if set' then Set else Clear;
      OneChanged(op, p0, bm.pages, bm.peers, q, bm.bits, r);
      forall k | 0 <= k < |peerDevs| && k != q && peerDevs[k] != null ensures Right(k) <==> old(Right(k)) {
        OtherCounts(op, dev.peers[peerDevs[k].p], p0, bm.pages, bm.peers, k, bm.bits, q, r.first,
                    Clip(bm.bits, r.last));
      }
    }

    /** The first loop: peers that have a peer device. Returns those that had a bit newly set. */
    method MarkConnected(all: set<nat>, bits: set<nat>, set': SyncRange.Range, clear: SyncRange.Range,
                         resetFailed: bool)
      returns (setBits: set<nat>)
      requires Ready() && (forall r | r in {set', clear} :: r.Bits? ==> r.last / BM_BITS_PER_EXT < LC_FREE)
      requires forall q :: q in all ==> q < |peerDevs|
      modifies dev`peers, bm`pages, bm`needWriteout, bm`lazyWriteout, bm`bmSet
      ensures Ready()
      ensures Marked(old(bm.pages), bm.pages, bm.peers, bm.bits, (set k | k in all && peerDevs[k] != null), bits, set',
                     clear)
      ensures forall k :: k in setBits <==>
                k in all && k in bits && peerDevs[k] != null && Changes(old(bm.pages), bm.peers, k, bm.bits, set', true)
      ensures forall k :: 0 <= k < |peerDevs| && peerDevs[k] != null && old(Right(k)) ==>
                (Right(k) <==>
                   !(k in all && k !in bits && LosesIn(old(Lru(k)), old(bm.pages), bm.peers, k, bm.bits, clear)))
    {
      hide BitAt, CountsRight, BsrBitmap.Valid, Device.Inv, Right, LosesIn, Marked, Changes, OnePeer;
      setBits := {};
      MarkedNone(bm.pages, bm.peers, bm.bits, bits, set', clear);
      ghost var done: set<nat> := {};
      for q := 0 to |peerDevs|
        invariant Ready() && |dev.peers| == |old(dev.peers)|
        invariant done == set k | k in all && k < q && peerDevs[k] != null
        invariant Marked(old(bm.pages), bm.pages, bm.peers, bm.bits, done, bits, set', clear)
        invariant forall k :: k in setBits <==>
                    && k in all && k in bits && k < q && peerDevs[k] != null
                    && Changes(old(bm.pages), bm.peers, k, bm.bits, set', true)
        invariant forall k :: q <= k < |peerDevs| && peerDevs[k] != null ==>
                    Lru(k) == old(Lru(k)) && (Right(k) <==> old(Right(k)))
        invariant forall k :: 0 <= k < q && peerDevs[k] != null && old(Right(k)) ==>
                    (Right(k) <==>
                       !(k in all && k !in bits && LosesIn(old(Lru(k)), old(bm.pages), bm.peers, k, bm.bits, clear)))
      {
        if peerDevs[q] != null && q in all {
          ghost var p1 := bm.pages;
          NotMarkedYet(Lru(q), old(bm.pages), p1, bm.peers, bm.bits, done, bits, set', clear, q);
          var n := MarkPeer(q, q in bits, if q in bits then set' else clear, resetFailed);
          MarkedMore(old(bm.pages), p1, bm.pages, bm.peers, bm.bits, done, bits, set', clear, q);
          done := done + {q};
          if q in bits && n > 0 {
            setBits := setBits + {q};
          }
        }
      }
      assert done == set k | k in all && peerDevs[k] != null;
    }

    /** The second loop: slots without a peer device. */
    method MarkOthers(todo: set<nat>, bits: set<nat>, set': SyncRange.Range, clear: SyncRange.Range, resetFailed: bool)
      requires Ready() && (forall r | r in {set', clear} :: r.Bits? ==> r.last / BM_BITS_PER_EXT < LC_FREE)
      requires forall q :: q in todo ==> q < |peerDevs| && peerDevs[q] == null
      modifies dev`peers, bm`pages, bm`needWriteout, bm`lazyWriteout, bm`bmSet
      ensures Ready() && forall k :: 0 <= k < |peerDevs| && peerDevs[k] != null ==> (Right(k) <==> old(Right(k)))
      ensures Marked(old(bm.pages), bm.pages, bm.peers, bm.bits, todo, bits, set', clear)
    {
      hide BitAt, CountsRight, BsrBitmap.Valid, Device.Inv, Right, LosesIn, Marked, Changes, OnePeer;
      MarkedNone(bm.pages, bm.peers, bm.bits, bits, set', clear);
      ghost var done: set<nat> := {};
      for q := 0 to |peerDevs|
        invariant Ready() && forall k :: 0 <= k < |peerDevs| && peerDevs[k] != null ==> (Right(k) <==> old(Right(k)))
        invariant done == set k | k in todo && k < q
        invariant Marked(old(bm.pages), bm.pages, bm.peers, bm.bits, done, bits, set', clear)
      {
        if q in todo {
          ghost var p1 := bm.pages;
          var n := MarkPeer(q, q in bits, if q in bits then set' else clear, resetFailed);
          MarkedMore(old(bm.pages), p1, bm.pages, bm.peers, bm.bits, done, bits, set', clear, q);
          done := done + {q};
        }
      }
      assert done == todo;
    }

    /**
     * `bsr_set_sync`: for the selected peers in `mask`, marks the request out of sync (peers in `bits`) or in sync.
     * Slots with a peer device go first. Returns the connected peers that had a bit newly set. Cached counts stay
     * right for exactly those peers whose cache, as it was before the call, loses no update. `resetFailed` stands for
     * the role checks of `update_rs_extent`.
     */
    method SetSync(sector: nat, size: nat, capacity: nat, bits: set<nat>, mask: set<nat>, resetFailed: bool)
      returns (setBits: set<nat>)
      requires Ready() && capacity / 8 / BM_BITS_PER_EXT < LC_FREE
      modifies dev`peers, bm`pages, bm`needWriteout, bm`lazyWriteout, bm`bmSet
      ensures Ready()
      ensures Marked(old(bm.pages), bm.pages, bm.peers, bm.bits, Selected(mask, |peerDevs|), bits,
                     SyncRange.SetSync(false, sector, size, capacity), SyncRange.SetSync(true, sector, size, capacity))
      ensures capacity == bm.devCapacity && sector < capacity && size > 0 && size % 512 == 0 ==>
                BlocksMarked(old(bm.pages), bm.pages, bm.peers, bm.bits, Selected(mask, |peerDevs|), bits, sector, size,
                             capacity)
      ensures forall q :: q in setBits <==>
                && q in Selected(mask, |peerDevs|) && q in bits && q < |peerDevs| && peerDevs[q] != null
                && Changes(old(bm.pages), bm.peers, q, bm.bits, SyncRange.SetSync(false, sector, size, capacity), true)
      ensures forall q :: 0 <= q < |peerDevs| && peerDevs[q] != null && old(Right(q)) ==>
                (Right(q) <==> !(&& q in Selected(mask, |peerDevs|) && q !in bits
                                 && LosesIn(old(Lru(q)), old(bm.pages), bm.peers, q, bm.bits,
                                            SyncRange.SetSync(true, sector, size, capacity))))
    {
      hide BitAt, CountsRight, BsrBitmap.Valid, Device.Inv, Right, LosesIn, SyncRange.SetSync, Marked, Changes,
        Selected, BlocksMarked, BitmapWeight.OneBitPerBlock;
      PeersFit(bm);
      SelectedIs(mask, |peerDevs|);
      var all := Selected(mask, |peerDevs|);
      var set' := SyncRange.SetSync(false, sector, size, capacity);
      var clear := SyncRange.SetSync(true, sector, size, capacity);
      RangesFit(sector, size, capacity);
      setBits := MarkConnected(all, bits, set', clear, resetFailed);
      var todo := set k | k in all && peerDevs[k] == null;
      ghost var p1, done := bm.pages, set k | k in all && peerDevs[k] != null;
      MarkOthers(todo, bits, set', clear, resetFailed);
      MarkedTwice(old(bm.pages), p1, bm.pages, bm.peers, bm.bits, done, todo, bits, set', clear);
      assert done + todo == all;
      if capacity == bm.devCapacity && sector < capacity && size > 0 && size % 512 == 0 {
        BlocksBits(bm);
        MarkedBlocks(old(bm.pages), bm.pages, bm.peers, bm.bits, all, bits, sector, size, capacity);
      }
    }
  }

  lemma NoneChanged(pages: seq<Page>, peers: nat, q: nat, bits: nat, r: SyncRange.Range, v: bool)
    ensures r.NoBits? || r.first > r.last ==>
              OnePeer(pages, pages, peers, q, bits, r, v) && !Changes(pages, peers, q, bits, r, v)
  {
    hide BitAt;
  }

  /** What setting or clearing the bits of a range does to one peer, and when it changes something. */
  lemma OneChanged(op: Op, p0: seq<Page>, p1: seq<Page>, peers: nat, q: nat, bits: nat, r: SyncRange.Range)
    requires (op.Set? || op.Clear?) && r.Bits? && r.first <= r.last
    requires Applied(op, p0, p1, peers, q, r.first, Clip(bits, r.last), [])
    ensures OnePeer(p0, p1, peers, q, bits, r, op.Set?)
    ensures var n := Result(op, p0, p1, peers, q, r.first, Clip(bits, r.last), r.last);
      n >= 0 && (n > 0 <==> Changes(p0, peers, q, bits, r, op.Set?))
  {
    hide BitAt, Result;
    ChangedBits(op, p0, p1, peers, q, r.first, Clip(bits, r.last), r.last);
  }

  lemma BlocksBits(bm: BsrBitmap)
    requires bm.Valid()
    ensures BitmapWeight.OneBitPerBlock(bm.bits, bm.devCapacity)
  {
  }

  lemma PeersFit(bm: BsrBitmap)
    requires bm.Valid()
    ensures bm.peers <= 32
  {
  }

  lemma RangesFit(sector: nat, size: nat, capacity: nat)
    ensures forall clear :: var r := SyncRange.SetSync(clear, sector, size, capacity);
              r.Bits? ==> r.last / BM_BITS_PER_EXT <= capacity / 8 / BM_BITS_PER_EXT
  {
  }

  lemma MarkedNone(p: seq<Page>, peers: nat, bmBits: nat, bits: set<nat>, set': SyncRange.Range, clear: SyncRange.Range)
    ensures Marked(p, p, peers, bmBits, {}, bits, set', clear)
  {
  }

  lemma MarkedMore(p0: seq<Page>, p1: seq<Page>, p2: seq<Page>, peers: nat, bmBits: nat, done: set<nat>, bits: set<nat>,
                   set': SyncRange.Range, clear: SyncRange.Range, q: nat)
    requires Marked(p0, p1, peers, bmBits, done, bits, set', clear) && q !in done
    requires OnePeer(p1, p2, peers, q, bmBits, if q in bits then set' else clear, q in bits)
    ensures Marked(p0, p2, peers, bmBits, done + {q}, bits, set', clear)
  {
    hide BitAt;
  }

  /** Before its turn a peer has the bits it had at the start. */
  lemma NotMarkedYet(lru: Cache, p0: seq<Page>, p1: seq<Page>, peers: nat, bmBits: nat, done: set<nat>, bits: set<nat>,
                     set': SyncRange.Range, clear: SyncRange.Range, q: nat)
    requires Marked(p0, p1, peers, bmBits, done, bits, set', clear) && q !in done && q < peers
    ensures LosesIn(lru, p0, peers, q, bmBits, clear) <==> LosesIn(lru, p1, peers, q, bmBits, clear)
    ensures Changes(p0, peers, q, bmBits, set', true) <==> Changes(p1, peers, q, bmBits, set', true)
  {
    hide BitAt, LosesIn;
    SameLoss(lru, p0, p1, peers, q, bmBits, clear);
  }

  lemma MarkedTwice(p0: seq<Page>, p1: seq<Page>, p2: seq<Page>, peers: nat, bmBits: nat, done: set<nat>,
                    more: set<nat>, bits: set<nat>, set': SyncRange.Range, clear: SyncRange.Range)
    requires Marked(p0, p1, peers, bmBits, done, bits, set', clear)
    requires Marked(p1, p2, peers, bmBits, more, bits, set', clear)
    requires done !! more
    ensures Marked(p0, p2, peers, bmBits, done + more, bits, set', clear)
  {
    hide BitAt;
  }

  /** What is lost depends on the peer's own bits only. */
  lemma SameLoss(lru: Cache, p0: seq<Page>, p1: seq<Page>, peers: nat, k: nat, bits: nat, r: SyncRange.Range)
    requires forall b: nat :: b < bits ==> BitAt(p1, peers, k, b) == BitAt(p0, peers, k, b)
    ensures LosesIn(lru, p0, peers, k, bits, r) <==> LosesIn(lru, p1, peers, k, bits, r)
  {
    hide BitAt, Cache.Find;
    if r.Bits? {
      var last := Clip(bits, r.last);
      forall e: nat ensures Touched(p0, peers, k, r.first, last, e) <==> Touched(p1, peers, k, r.first, last, e) {
      }
    }
  }

  /** Another peer's bits do not matter to a peer's counts. */
  lemma OtherCounts(op: Op, peer: Peer, p0: seq<Page>, p1: seq<Page>, peers: nat, k: nat, bits: nat, q: nat, s: nat,
                    e: int)
    requires k != q && Applied(op, p0, p1, peers, q, s, e, [])
    ensures CountsRight(peer, p0, peers, k, bits) <==> CountsRight(peer, p1, peers, k, bits)
  {
    hide BitAt, Cache.Valid;
    forall enr: nat ensures ExtWeight(p1, peers, k, bits, enr) == ExtWeight(p0, peers, k, bits, enr) {
      CountRangeAgree(p0, p1, peers, k, enr * BM_BITS_PER_EXT, Clip(bits, (enr + 1) * BM_BITS_PER_EXT - 1) + 1);
    }
  }

  /** A new bitmap for 32 peers: marking peer 0 out of sync leaves its bit clear. */
  method FullMaskMarksNone() returns (d: SyncDevice)
    ensures d.Ready() && |d.peerDevs| == 32 && SyncRange.SetSync(false, 0, 4096, 8).Contains(0) && 0 < d.bm.bits
    ensures !BitAt(d.bm.pages, 32, 0, 0)
  {
    hide BitAt, CountsRight, LosesIn, Changes, Device.Inv, Selected;
    var bm := new BsrBitmap(32, seq(1, _ => ZERO_PAGE));
    var err := bm.Resize(8, false, true, true);
    var dev := new Device(67, []);
    d := new SyncDevice(bm, dev, seq(32, _ => null));
    SelectedIs({0}, 32);
    var setBits := d.SetSync(0, 4096, 8, {0}, {0}, true);
  }
}

/** A run from a new device in which a cached count goes stale: resync holds every slot of its cache. */
module StaleCount {
  import opened BitmapStore
  import opened BitmapOps
  import opened BitmapScan
  import opened Bitmap
  import opened LruCache
  import opened AlRefs
  import opened ResyncLock
  import opened SyncCounts
  import opened LostCounts
  import opened SyncBits

  /** Resync holds extents `1..n`, each once; extent 0 is not cached. */
  ghost predicate Holding(peer: Peer, n: nat) {
    && peer.Ok() && peer.wenr == LC_FREE && peer.resyncLocked == n && !peer.lru.starving && !peer.lru.locked
    && |peer.lru.slots| == RESYNC_SLOTS && (forall i :: 0 <= i < RESYNC_SLOTS ==> peer.lru.slots[i].number != 0)
    && (n > 0 ==> peer.Grants(1) > 0) && forall e :: e > n ==> peer.Grants(e) == 0
  }

  /** Bits 0 and `n * 32768` on are set at the start of every extent not yet cleared. */
  ghost predicate FirstBits(pages: seq<Page>, n: nat) {
    forall e: nat :: e == 0 || e == 1 || n < e < 62 ==> BitAt(pages, 1, 0, e * BM_BITS_PER_EXT)
  }

  lemma HasRoom(peer: Peer, n: nat)
    requires Holding(peer, n) && n < RESYNC_SLOTS
    ensures peer.lru.UnusedAvailable()
  {
    CountRoom(peer.lru.slots, UsedSlot);
    var i :| 0 <= i < |peer.lru.slots| && !UsedSlot(peer.lru.slots[i]);
    assert peer.lru.slots[i].refcnt == 0;
  }

  /** Extent 0 is missed, after which the update of extent 1 is lost. */
  lemma WillLose(peer: Peer, pages: seq<Page>)
    requires Holding(peer, RESYNC_SLOTS) && FirstBits(pages, RESYNC_SLOTS)
    ensures Loses(peer.lru, pages, 1, 0, 0, BM_BITS_PER_EXT)
  {
    hide BitAt;
    forall i | 0 <= i < |peer.lru.slots| ensures peer.lru.slots[i].refcnt > 0 {
      NoneUnused(peer.lru.slots, i);
    }
    assert BitAt(pages, 1, 0, 0 * BM_BITS_PER_EXT) && BitAt(pages, 1, 0, 1 * BM_BITS_PER_EXT);
    assert Touched(pages, 1, 0, 0, BM_BITS_PER_EXT, 0) && Touched(pages, 1, 0, 0, BM_BITS_PER_EXT, 1);
    assert peer.lru.Find(0, false).None? && peer.lru.Find(1, false).Some?;
    assert Missed(peer.lru, pages, 1, 0, 0, BM_BITS_PER_EXT, 1);
  }

  /**
   * One peer on a bitmap of 62 extents: resync holds extents `1..n`, and the first bits after extent `m` are still
   * set.
   */
  ghost predicate Setup(pb: PeerBits, n: nat, m: nat)
    reads pb, pb.dev, pb.bm
  {
    && pb.Valid() && pb.p == 0 && pb.k == 0 && pb.bm.peers == 1 && pb.bm.bits == 62 * BM_BITS_PER_EXT
    && Holding(pb.dev.peers[0], n) && FirstBits(pb.bm.pages, m) && forall a: nat :: !pb.dev.al.IsUsed(a)
  }

  lemma BeginHolds(p: Peer, q: Peer, e: nat, weight: int)
    requires e > 0 && Holding(p, e - 1) && q.Ok() && Recounted(p, q, e, weight) && GrantsGrow(p, q, e, 1)
    requires q.wenr == LC_FREE && !q.lru.starving && !q.lru.locked && q.resyncLocked == e
    ensures Holding(q, e)
  {
    hide Peer.Grants;
  }

  /** Resync takes extent `e`: by a miss while three slots are left, by a hit if it is cached. */
  method Take(pb: PeerBits, e: nat, ghost m: nat)
    requires 1 <= e <= RESYNC_SLOTS && Setup(pb, e - 1, m)
    requires e <= RESYNC_SLOTS - 2 || pb.dev.peers[0].lru.Find(e, false).Some?
    modifies pb.dev`peers
    ensures Setup(pb, e, m)
  {
    hide ExtWeight, CountsOwed, GrantsGrow, Recounted, Excluded, BsrBitmap.Valid, FirstBits, Cache.IsUsed, Peer.Grants,
      Cache.Find;
    ghost var peer := pb.dev.peers[0];
    var weight: int := ExtWeight(pb.bm.pages, 1, 0, pb.bm.bits, e);
    var ok := pb.dev.TryRsBeginIo(0, e, false, weight);
    assert ok;
    RecountedOwed(peer, pb.dev.peers[0], e, pb.bm.pages, 1, 0, pb.bm.bits, map[]);
    BeginHolds(peer, pb.dev.peers[0], e, weight);
  }

  lemma LookedHolds(p: Peer, q: Peer, n: nat, e: nat)
    requires Holding(p, n) && n < RESYNC_SLOTS && q.Ok() && Kept(p, q) && Looked(p, q, e) && e != 0
    ensures Holding(q, n) && q.lru.Find(e, false).Some?
  {
    hide Peer.Grants, Cache.Find;
    HasRoom(p, n);
  }

  lemma ClearedFirst(p0: seq<Page>, p1: seq<Page>, e: nat)
    requires 1 < e < 62 && FirstBits(p0, e - 1)
    requires Applied(Clear, p0, p1, 1, 0, e * BM_BITS_PER_EXT, e * BM_BITS_PER_EXT, [])
    ensures FirstBits(p1, e)
    ensures Result(Clear, p0, p1, 1, 0, e * BM_BITS_PER_EXT, e * BM_BITS_PER_EXT, e * BM_BITS_PER_EXT) != 0
  {
    hide BitAt, Result;
    assert BitAt(p0, 1, 0, e * BM_BITS_PER_EXT);
    ChangedBits(Clear, p0, p1, 1, 0, e * BM_BITS_PER_EXT, e * BM_BITS_PER_EXT, e * BM_BITS_PER_EXT);
  }

  lemma NothingLostWithRoom(peer: Peer, n: nat, pages: seq<Page>, peers: nat, k: nat, s: nat, last: int)
    requires Holding(peer, n) && n < RESYNC_SLOTS
    ensures !Loses(peer.lru, pages, peers, k, s, last)
  {
    HasRoom(peer, n);
  }

  /** Clearing the first bit of extent `e` pulls the extent in. */
  method PullIn(pb: PeerBits, e: nat)
    requires 1 < e <= RESYNC_SLOTS && Setup(pb, e - 1, e - 1)
    modifies pb.dev`peers, pb.bm`pages, pb.bm`needWriteout, pb.bm`lazyWriteout, pb.bm`bmSet
    ensures Setup(pb, e - 1, e) && pb.dev.peers[0].lru.Find(e, false).Some?
  {
    hide ExtWeight, CountsRight, Kept, Looked, Excluded, BsrBitmap.Valid, FirstBits, Cache.IsUsed, Peer.Grants,
      Cache.Find, Applied, Result, Loses;
    ghost var peer, p0 := pb.dev.peers[0], pb.bm.pages;
    var b := e * BM_BITS_PER_EXT;
    NothingLostWithRoom(peer, e - 1, p0, 1, 0, b, b);
    var count := pb.UpdateSyncBits(b, b, SetInSync, true);
    ClearedFirst(p0, pb.bm.pages, e);
    LookedHolds(peer, pb.dev.peers[0], e - 1, e);
  }

  /** A new peer device and bitmap, with every bit set. */
  method Begin() returns (pb: PeerBits)
    ensures fresh(pb) && fresh(pb.dev) && fresh(pb.bm) && Setup(pb, 0, 0)
    ensures forall b: nat :: b < pb.bm.bits ==> BitAt(pb.bm.pages, 1, 0, b)
  {
    hide BitAt, BsrBitmap.Valid, Excluded, Cache.Find, Cache.Valid;
    var bm := new BsrBitmap(1, seq(62, _ => ZERO_PAGE));
    var err := bm.Resize(8 * 62 * BM_BITS_PER_EXT, true, true, true);
    var dev := new Device(67, [0]);
    forall a: nat ensures !dev.al.IsUsed(a) {
      FreshFinds(67, 64, a);
    }
    pb := new PeerBits(dev, 0, bm, 0);
  }

  /**
   * Resync begins on extents 1 to 59, which it pulls in; updates pull in 60 and 61, and resync begins on them as
   * well. Then extents 0 and 1 are marked in sync up to the first bit of extent 1: extent 0 is missed, the cache
   * starves, and the count of extent 1 is stale.
   */
  method CountGoesStale() returns (pb: PeerBits)
    ensures pb.Ready() && !pb.Valid()
  {
    hide Holding, FirstBits, ExtWeight, CountsRight, Kept, Looked, BsrBitmap.Valid, Device.Inv, Cache.IsUsed, Applied,
      Result, Loses;
    pb := Begin();
    for e := 1 to RESYNC_SLOTS - 1
      invariant Setup(pb, e - 1, 0) && fresh(pb) && fresh(pb.dev) && fresh(pb.bm)
    {
      Take(pb, e, 0);
    }
    FewerFirst(pb.bm.pages, 0, RESYNC_SLOTS - 2);
    PullIn(pb, RESYNC_SLOTS - 1);
    Take(pb, RESYNC_SLOTS - 1, RESYNC_SLOTS - 1);
    PullIn(pb, RESYNC_SLOTS);
    Take(pb, RESYNC_SLOTS, RESYNC_SLOTS);
    WillLose(pb.dev.peers[0], pb.bm.pages);
    var count := pb.UpdateSyncBits(0, BM_BITS_PER_EXT, SetInSync, true);
  }

  lemma FewerFirst(pages: seq<Page>, n: nat, m: nat)
    requires FirstBits(pages, n) && n <= m
    ensures FirstBits(pages, m)
  {
    hide BitAt;
  }

  /** An extent that holds a set bit has weight. */
  lemma HasWeight(pages: seq<Page>, bits: nat, b: nat)
    requires b < bits && b < BM_BITS_PER_EXT && BitAt(pages, 1, 0, b)
    ensures ExtWeight(pages, 1, 0, bits, 0) > 0
  {
    hide BitAt;
    var hi := Clip(bits, BM_BITS_PER_EXT - 1) + 1;
    CountRangeSplit(pages, 1, 0, 0, b, hi);
    CountRangeSplit(pages, 1, 0, b, b + 1, hi);
    CountRangeBound(pages, 1, 0, 0, b);
    CountRangeBound(pages, 1, 0, b + 1, hi);
    OneBit(pages, 1, 0, b);
  }

  /** The extent just pulled in has room for one subtraction too many. */
  lemma WillOverpay(p: Peer, q: Peer, pages: seq<Page>, bits: nat)
    requires Holding(p, 0) && q.Ok() && Recounted(p, q, 0, ExtWeight(pages, 1, 0, bits, 0))
    requires ExtWeight(pages, 1, 0, bits, 0) > 0
    requires q.lru.Find(0, false).Some? && !q.lru.starving
    ensures Pays(q.lru, q.exts, map[], 0, SetInSync, 1)
  {
    hide ExtWeight, Cache.Valid, Peer.Grants;
    var i := q.lru.Find(0, false).value;
    assert p.lru.slots[i].number != 0;
  }

  /**
   * Bit 0 is cleared. Before the count of its extent is updated, resync begins on the extent, which pulls it in
   * with its new weight; the update then subtracts the bit again. No update is outstanding, and the count is wrong.
   */
  method CountedTwice() returns (pb: PeerBits)
    ensures pb.Ready() && !pb.Valid()
  {
    hide Holding, FirstBits, ExtWeight, CountsOwed, Kept, Looked, BsrBitmap.Valid, Cache.IsUsed, Applied, Result,
      Recounted, Cache.Find, Peer.Ok, Excluded, Pays, Fetchable;
    pb := Begin();
    ghost var peer, p0 := pb.dev.peers[0], pb.bm.pages;
    NotHeld(peer, 0);
    OkIsCommitted(peer);
    var c := pb.ChangeBits(0, 0, SetInSync, map[]);
    OneCleared(p0, pb.bm.pages, pb.bm.bits);
    SameSlots(peer.lru, peer.exts, pb.bm.pages, 1, 0, pb.bm.bits, map[0 := 1], map[], 0, peer.lru);
    var weight: int := ExtWeight(pb.bm.pages, 1, 0, pb.bm.bits, 0);
    var ok := pb.dev.TryRsBeginIo(0, 0, false, weight);
    RecountedOwed(peer, pb.dev.peers[0], 0, pb.bm.pages, 1, 0, pb.bm.bits, map[]);
    WillOverpay(peer, pb.dev.peers[0], pb.bm.pages, pb.bm.bits);
    ghost var held := pb.dev.peers[0];
    var cleared;
    ghost var slot;
    cleared, slot := pb.UpdateRsExtent(0, c, SetInSync, true, map[]);
    LookedStays(held, pb.dev.peers[0], 0);
    OwedIsStale(pb.dev.peers[0], pb.bm.pages, 1, 0, pb.bm.bits, 0, map[0 := -1]);
    StaleIsWrong(pb.dev.peers[0], pb.bm.pages, 1, 0, pb.bm.bits, 1);
  }

  lemma NotHeld(p: Peer, n: nat)
    requires Holding(p, n) && n <= RESYNC_SLOTS - 3
    ensures p.lru.Find(0, false).None? && p.wenr == LC_FREE && Obtainable(Dropped(p, 0), 0)
  {
  }

  lemma LookedStays(p: Peer, q: Peer, enr: nat)
    requires Looked(p, q, enr) && p.lru.Find(enr, false).Some?
    ensures q.lru.Find(enr, false).Some?
  {
    SameFind(p.lru, q.lru, enr);
  }

  lemma OneCleared(p0: seq<Page>, p1: seq<Page>, bits: nat)
    requires bits > 1 && (forall b: nat :: b < bits ==> BitAt(p0, 1, 0, b)) && Applied(Clear, p0, p1, 1, 0, 0, 0, [])
    ensures Result(Clear, p0, p1, 1, 0, 0, 0, 0) == 1 && ExtWeight(p1, 1, 0, bits, 0) > 0
  {
    hide BitAt, ExtWeight;
    OneBit(p0, 1, 0, 0);
    OneBit(p1, 1, 0, 0);
    HasWeight(p1, bits, 1);
  }
}

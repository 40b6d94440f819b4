/**
 * The cached per-extent counts `rs_left` and `rs_failed` of a peer's resync cache, and how bits and lookups change
 * them.
 */
module SyncCounts {
  import opened BitmapStore
  import opened BitmapOps
  import opened BitmapScan
  import opened Options
  import opened LruCache
  import opened AlRefs
  import opened ResyncLock

  /** Bits of one resync extent: 128 MiB of storage. */
  const BM_BITS_PER_EXT := 32768

  datatype Mode = SetInSync | SetOutOfSync | RecordRsFailed {
    function Op(): Op {
      match this
      case SetInSync => Clear
      case SetOutOfSync => Set
      case RecordRsFailed => Count
    }
  }

  /** `bm_e_weight`: set bits of peer `k` in resync extent `enr`. */
  function ExtWeight(pages: seq<Page>, peers: nat, k: nat, bits: nat, enr: nat): nat {
    CountRange(pages, peers, k, enr * BM_BITS_PER_EXT, Clip(bits, (enr + 1) * BM_BITS_PER_EXT - 1) + 1)
  }

  /** The resync cache holds no uncommitted change. */
  ghost predicate Committed(lru: Cache, exts: seq<Ext>) {
    && lru.Valid() && lru.pending == 0 && lru.maxPending > 0 && |exts| == |lru.slots|
    && forall i :: 0 <= i < |exts| ==> !lru.slots[i].Pending()
  }

  /** By how much bits of extent `e` have changed since the last update of its count. */
  function Owed(owed: map<nat, int>, e: nat): int {
    if e in owed then owed[e] else 0
  }

  /** An update of extent `e` by `n` is no longer outstanding. */
  function Paid(owed: map<nat, int>, e: nat, n: int): map<nat, int> {
    owed[e := Owed(owed, e) - n]
  }

  /**
   * Every cached count is the weight of its extent and what is still owed to it: bits change under one lock and
   * counts are updated under another, so that updates may be outstanding.
   */
  ghost predicate CountsOwed(lru: Cache, exts: seq<Ext>, pages: seq<Page>, peers: nat, k: nat, bits: nat,
                             owed: map<nat, int>) {
    && Committed(lru, exts)
    && forall i :: 0 <= i < |exts| && !lru.slots[i].Free() ==>
         exts[i].rsLeft == ExtWeight(pages, peers, k, bits, lru.slots[i].number) + Owed(owed, lru.slots[i].number)
  }

  /** `owed1` and `owed2` differ at most on extent `enr`. */
  ghost predicate OwedOnlyOn(owed1: map<nat, int>, owed2: map<nat, int>, enr: nat) {
    forall e: nat :: e != enr ==> Owed(owed1, e) == Owed(owed2, e)
  }

  /**
   * An update of extent `enr` leaves every count the weight and what is then owed. Whoever overwrites the count by
   * the weight must not leave an update of the extent outstanding, and a starving cache must have nothing to record.
   */
  predicate Pays(lru: Cache, exts: seq<Ext>, owed: map<nat, int>, enr: nat, mode: Mode, count: int) {
    var off, rest := Off(mode, count), Owed(owed, enr) - Off(mode, count);
    match lru.Find(enr, false)
    case None => mode.SetOutOfSync? || !Fetchable(lru, enr) || rest == 0
    case Some(i) =>
      if lru.starving && !mode.SetOutOfSync? then off == 0
      else i < |exts| && (rest == 0 || exts[i].rsLeft - off >= FailedCount(lru, exts, enr, mode, count))
  }

  /** Failed bits recorded for extent `enr`, with the `count` new ones. */
  function FailedCount(lru: Cache, exts: seq<Ext>, enr: nat, mode: Mode, count: int): int {
    var e := lru.Find(enr, false);
    (if e.Some? && e.value < |exts| then exts[e.value].rsFailed else 0) + if mode.RecordRsFailed? then count else 0
  }

  /** A slot for extent `enr` can be had from the resync cache. */
  predicate Fetchable(lru: Cache, enr: nat) {
    !lru.starving && (lru.Find(enr, false).Some? || (!lru.locked && lru.UnusedAvailable()))
  }

  /** The verdict on the extent: cleared if all bits still set are failed ones; the failed count, unless reset. */
  ghost predicate Tallied(lru: Cache, exts: seq<Ext>, enr: nat, slot: Option<nat>, failed: int, resetFailed: bool,
                          cleared: bool) {
    match slot
    case None => !cleared
    case Some(i) =>
      && i < |exts| == |lru.slots| && lru.slots[i].number == enr
      && (cleared <==> exts[i].rsLeft <= failed) && exts[i].rsFailed == if cleared && resetFailed then 0 else failed
  }

  lemma TalliedNone(lru: Cache, exts: seq<Ext>, enr: nat, failed: int, resetFailed: bool)
    ensures Tallied(lru, exts, enr, None, failed, resetFailed, false)
  {
  }

  /** A new count for extent `enr` in slot `i`, where it was or is pulled in. */
  lemma OneCount(lru: Cache, exts: seq<Ext>, pages: seq<Page>, peers: nat, k: nat, bits: nat, owed: map<nat, int>,
                 owed': map<nat, int>, enr: nat, i: nat, lru': Cache, ext: Ext)
    requires CountsOwed(lru, exts, pages, peers, k, bits, owed) && OwedOnlyOn(owed, owed', enr)
    requires i < |exts| && enr != LC_FREE && (lru.slots[i].number == enr || lru.Find(enr, false).None?)
    requires lru'.Valid() && lru'.pending == 0 && lru'.maxPending > 0 && |lru'.slots| == |lru.slots|
    requires lru'.slots[i].number == lru'.slots[i].newNumber == enr
    requires forall j :: 0 <= j < |exts| && j != i ==>
               lru'.slots[j].number == lru.slots[j].number && lru'.slots[j].newNumber == lru.slots[j].newNumber
    ensures CountsOwed(lru', exts[i := ext], pages, peers, k, bits, owed')
            <==> ext.rsLeft == ExtWeight(pages, peers, k, bits, enr) + Owed(owed', enr)
  {
    hide ExtWeight, Owed;
    forall j | 0 <= j < |exts| && j != i && !lru.slots[j].Free() ensures lru.slots[j].number != enr {
      assert !lru.slots[j].Pending() && !lru.slots[i].Pending();
    }
  }

  /** Counts that nobody touches. */
  lemma SameSlots(lru: Cache, exts: seq<Ext>, pages: seq<Page>, peers: nat, k: nat, bits: nat, owed: map<nat, int>,
                  owed': map<nat, int>, enr: nat, lru': Cache)
    requires CountsOwed(lru, exts, pages, peers, k, bits, owed) && OwedOnlyOn(owed, owed', enr) && enr != LC_FREE
    requires lru'.Valid() && lru'.slots == lru.slots && lru'.pending == lru.pending && lru'.maxPending == lru.maxPending
    ensures CountsOwed(lru', exts, pages, peers, k, bits, owed')
            <==> lru.Find(enr, false).None? || Owed(owed', enr) == Owed(owed, enr)
  {
    hide ExtWeight, Owed;
    forall j | 0 <= j < |exts| && lru.Find(enr, false).None? && !lru.slots[j].Free()
      ensures lru.slots[j].number != enr
    {
      assert !lru.slots[j].Pending();
    }
    if lru.Find(enr, false).Some? {
      var i := lru.Find(enr, false).value;
      assert exts[i].rsLeft == ExtWeight(pages, peers, k, bits, enr) + Owed(owed, enr);
    }
  }

  lemma NothingOwed(lru: Cache, exts: seq<Ext>, pages: seq<Page>, peers: nat, k: nat, bits: nat, owed: map<nat, int>)
    requires forall e: nat :: Owed(owed, e) == 0
    ensures CountsOwed(lru, exts, pages, peers, k, bits, owed) <==> CountsOwed(lru, exts, pages, peers, k, bits, map[])
  {
    hide ExtWeight, Cache.Valid;
  }

  /** `sbnr | BM_BLOCKS_PER_BM_EXT_MASK` */
  function ExtEnd(s: nat): nat {
    s / BM_BITS_PER_EXT * BM_BITS_PER_EXT + BM_BITS_PER_EXT - 1
  }

  lemma SameExt(s: nat, t: nat, ebnr: nat)
    requires s <= ebnr && t == if ebnr <= ExtEnd(s) then ebnr else ExtEnd(s)
    ensures s <= t <= ebnr && s / BM_BITS_PER_EXT == t / BM_BITS_PER_EXT <= ebnr / BM_BITS_PER_EXT
  {
  }

  lemma NextSlice(s: nat, t: nat, ebnr: nat)
    requires s <= ebnr && t == if ebnr <= ExtEnd(s) then ebnr else ExtEnd(s)
    ensures t < ebnr ==> (t + 1) % BM_BITS_PER_EXT == 0 && (t + 1) / BM_BITS_PER_EXT == s / BM_BITS_PER_EXT + 1
  {
  }

  /** The operation has been applied to the bits `s0` up to `s`, and `count` is what it returns for them. */
  ghost predicate Done(op: Op, p0: seq<Page>, p1: seq<Page>, peers: nat, k: nat, s0: nat, s: nat, bits: nat, count: int)
    requires s0 <= s
  {
    && Applied(op, p0, p1, peers, k, s0, LastDone(bits, s), [])
    && count == (if s0 > LastDone(bits, s) then 0 else Result(op, p0, p1, peers, k, s0, LastDone(bits, s), 0))
  }

  function LastDone(bits: nat, s: nat): int {
    if s > bits then bits - 1 else s - 1
  }

  /** The bits from `s` to `t` on top of those before `s`. */
  lemma DoneMore(op: Op, p0: seq<Page>, p1: seq<Page>, p2: seq<Page>, peers: nat, k: nat, s0: nat, s: nat, t: nat,
                 bits: nat, count: int, c: int)
    requires op.Set? || op.Clear? || (op.Count? && p0 == p1 == p2)
    requires s0 <= s <= t && Done(op, p0, p1, peers, k, s0, s, bits, count)
    requires Applied(op, p1, p2, peers, k, s, Clip(bits, t), [])
    requires c == Result(op, p1, p2, peers, k, s, Clip(bits, t), t)
    ensures Done(op, p0, p2, peers, k, s0, t + 1, bits, count + c)
  {
    hide BitAt, CountRange;
    var e1, e2 := LastDone(bits, s), Clip(bits, t);
    assert e2 == LastDone(bits, t + 1);
    assert Applied(op, p0, p2, peers, k, s0, e2, []) by {
      forall q: nat, b: nat
        ensures BitAt(p2, peers, q, b)
             == if q == k && s0 <= b <= e2 then BitOp(op, BitAt(p0, peers, k, b), ArgBit([], s0, b))
                else BitAt(p0, peers, q, b)
      {
      }
    }
    if s <= e2 {
      CountRangeSplit(p0, peers, k, s0, s, e2 + 1);
      CountRangeSplit(p2, peers, k, s0, s, e2 + 1);
      CountRangeAgree(p1, p2, peers, k, s0, s);
      CountRangeAgree(p0, p1, peers, k, s, e2 + 1);
      NoCount(p0, p1, p2, peers, k, s0);
    } else {
      CountRangeAgree(p1, p2, peers, k, s0, e2 + 1);
    }
  }

  lemma NoCount(p0: seq<Page>, p1: seq<Page>, p2: seq<Page>, peers: nat, k: nat, s: nat)
    ensures CountRange(p0, peers, k, s, s) == CountRange(p1, peers, k, s, s) == CountRange(p2, peers, k, s, s) == 0
  {
  }

  lemma DoneAll(op: Op, p0: seq<Page>, p1: seq<Page>, peers: nat, k: nat, s0: nat, s: nat, ebnr: nat, bits: nat,
                count: int)
    requires op.Set? || op.Clear? || op.Count?
    requires s0 <= s && (s == s0 || s <= ebnr + 1) && s > ebnr && Done(op, p0, p1, peers, k, s0, s, bits, count)
    ensures Applied(op, p0, p1, peers, k, s0, Clip(bits, ebnr), [])
    ensures count == Result(op, p0, p1, peers, k, s0, Clip(bits, ebnr), ebnr)
  {
    hide BitAt, CountRange;
  }

  lemma NothingYet(op: Op, p: seq<Page>, peers: nat, k: nat, s0: nat)
    ensures forall bits: nat :: Done(op, p, p, peers, k, s0, s0, bits, 0)
  {
  }

  lemma ResultNat(op: Op, p0: seq<Page>, p1: seq<Page>, peers: nat, k: nat, s: nat, e: int, end0: nat)
    requires op.Set? || op.Clear? || op.Count?
    requires Applied(op, p0, p1, peers, k, s, e, [])
    ensures Result(op, p0, p1, peers, k, s, e, end0) >= 0
  {
    if s <= e && !op.Count? {
      CountRangeConst(p1, peers, k, s, e + 1, op.Set?);
      CountRangeBound(p0, peers, k, s, e + 1);
    }
  }

  /** Changing bits within one resync extent makes exactly that extent's count owe their number. */
  lemma SliceCounts(mode: Mode, lru: Cache, exts: seq<Ext>, p0: seq<Page>, p1: seq<Page>, peers: nat, k: nat, bits: nat,
                    s: nat, t: nat, owed: map<nat, int>)
    requires CountsOwed(lru, exts, p0, peers, k, bits, owed)
    requires Applied(mode.Op(), p0, p1, peers, k, s, Clip(bits, t), []) && s <= t
    requires s / BM_BITS_PER_EXT == t / BM_BITS_PER_EXT
    requires mode.RecordRsFailed? ==> p1 == p0
    ensures CountsOwed(lru, exts, p1, peers, k, bits,
                       Paid(owed, s / BM_BITS_PER_EXT,
                            -Off(mode, Result(mode.Op(), p0, p1, peers, k, s, Clip(bits, t), t))))
  {
    hide ExtWeight, Applied, Result, Cache.Valid;
    forall i | 0 <= i < |exts| && !lru.slots[i].Free()
      ensures ExtWeight(p0, peers, k, bits, lru.slots[i].number)
           == ExtWeight(p1, peers, k, bits, lru.slots[i].number)
              + if lru.slots[i].number == s / BM_BITS_PER_EXT
                then Off(mode, Result(mode.Op(), p0, p1, peers, k, s, Clip(bits, t), t)) else 0
    {
      if !mode.RecordRsFailed? {
        ExtWeightChange(mode, p0, p1, peers, k, bits, s, t, lru.slots[i].number);
      }
    }
  }

  lemma ExtWeightChange(mode: Mode, p0: seq<Page>, p1: seq<Page>, peers: nat, k: nat, bits: nat, s: nat, t: nat,
                        enr: nat)
    requires Applied(mode.Op(), p0, p1, peers, k, s, Clip(bits, t), []) && s <= t
    requires s / BM_BITS_PER_EXT == t / BM_BITS_PER_EXT
    requires !mode.RecordRsFailed?
    ensures ExtWeight(p0, peers, k, bits, enr) == ExtWeight(p1, peers, k, bits, enr)
              + if enr == s / BM_BITS_PER_EXT then Off(mode, Result(mode.Op(), p0, p1, peers, k, s, Clip(bits, t), t))
                else 0
  {
    hide BitAt, CountRange;
    var lo, hi, e := enr * BM_BITS_PER_EXT, Clip(bits, (enr + 1) * BM_BITS_PER_EXT - 1) + 1, Clip(bits, t);
    if enr != s / BM_BITS_PER_EXT || s > e {
      CountRangeAgree(p0, p1, peers, k, lo, hi);
    } else {
      CountRangeAgree(p0, p1, peers, k, lo, s);
      CountRangeAgree(p0, p1, peers, k, e + 1, hi);
      CountRangeSplit(p0, peers, k, lo, s, hi);
      CountRangeSplit(p1, peers, k, lo, s, hi);
      CountRangeSplit(p0, peers, k, s, e + 1, hi);
      CountRangeSplit(p1, peers, k, s, e + 1, hi);
    }
  }

  /** How far a cached count is off once `count` bits have changed but before it is updated. */
  function Off(mode: Mode, count: int): int {
    match mode
    case SetInSync => count
    case SetOutOfSync => -count
    case RecordRsFailed => 0
  }

  lemma FetchIs(lru: Cache, enr: nat, victim: nat)
    requires lru.Valid() && lru.pending == 0 && lru.maxPending > 0 && enr != LC_FREE
    requires forall i :: 0 <= i < |lru.slots| ==> !lru.slots[i].Pending()
    requires lru.UnusedAvailable() ==> lru.Recyclable(victim)
    ensures lru.Get(enr, true, false, victim).1.Some? <==> Fetchable(lru, enr)
    ensures Fetchable(lru, enr) && lru.Find(enr, false).Some? ==>
              lru.Get(enr, true, false, victim).1 == lru.Find(enr, false)
  {
    var f := lru.Find(enr, true);
    if f.Some? {
      FindValid(lru, f.value);
    }
  }

  /** What a get followed by a put does to the resync cache, which commits every change at once. */
  lemma FetchParts(lru: Cache, enr: nat, victim: nat)
    requires lru.Valid() && lru.pending == 0 && lru.maxPending > 0 && enr != LC_FREE
    requires forall i :: 0 <= i < |lru.slots| ==> !lru.slots[i].Pending()
    requires lru.UnusedAvailable() ==> lru.Recyclable(victim)
    ensures var (c, e) := lru.Get(enr, true, false, victim);
      if e.None? then
        c == lru.(starving := lru.starving || (lru.Find(enr, false).None? && !lru.locked && !lru.UnusedAvailable()))
      else
        var i, d := e.value, if c.slots[e.value].number == enr then c else c.Committed();
        && !lru.starving && i < |lru.slots| == |d.slots| && d.used > 0 && d.slots[i].refcnt > 0 && !d.slots[i].Pending()
        && d.Put(i).Valid() && c.slots[i].number == lru.slots[i].number
        && if lru.slots[i].number == enr then d.Put(i) == lru
           else
             && lru.slots[i].refcnt == 0 && lru.Find(enr, false).None?
             && d.Put(i) == lru.(slots := lru.slots[i := Slot(enr, enr, 0)])
  {
    hide LruCache.Count;
    FetchIs(lru, enr, victim);
    GetValid(lru, enr, true, false, victim);
    var (c, e) := lru.Get(enr, true, false, victim);
    var f := lru.Find(enr, true);
    if f.Some? {
      FindValid(lru, f.value);
    }
    if e.Some? {
      var i := e.value;
      CommittedValid(c);
      var d := if c.slots[i].number == enr then c else c.Committed();
      PutValid(d, i);
      assert d.Put(i).slots == if lru.slots[i].number == enr then lru.slots else lru.slots[i := Slot(enr, enr, 0)];
    }
  }

  // ---- counts and locks of one peer

  /** Every cached count of the peer is the weight of its extent. */
  ghost predicate CountsRight(peer: Peer, pages: seq<Page>, peers: nat, k: nat, bits: nat) {
    CountsOwed(peer.lru, peer.exts, pages, peers, k, bits, map[])
  }

  /** `q` has the locks, references and grants of `p`; at most its counts and unreferenced slots differ. */
  ghost predicate Kept(p: Peer, q: Peer) {
    && q.pro == p.pro && q.wenr == p.wenr && q.resyncLocked == p.resyncLocked && q.lru.locked == p.lru.locked
    && |q.lru.slots| == |p.lru.slots|
    && (forall i :: 0 <= i < |p.lru.slots| ==> q.lru.slots[i].refcnt == p.lru.slots[i].refcnt)
    && forall e :: q.Grants(e) == p.Grants(e)
  }

  lemma KeptRefl(p: Peer)
    ensures Kept(p, p)
  {
  }

  lemma KeptTrans(p: Peer, q: Peer, r: Peer)
    requires Kept(p, q) && Kept(q, r)
    ensures Kept(p, r)
  {
  }

  lemma KeptUnused(p: Peer, q: Peer)
    requires Kept(p, q)
    ensures q.lru.UnusedAvailable() == p.lru.UnusedAvailable()
  {
    if i :| 0 <= i < |p.lru.slots| && p.lru.slots[i].refcnt == 0 {
      assert q.lru.slots[i].refcnt == 0;
    }
    if i :| 0 <= i < |q.lru.slots| && q.lru.slots[i].refcnt == 0 {
      assert p.lru.slots[i].refcnt == 0;
    }
  }

  lemma OkIsCommitted(p: Peer)
    requires p.Ok()
    ensures Committed(p.lru, p.exts)
  {
  }

  /** New counts in a slot keep the locks. */
  lemma CountsOk(p: Peer, al: Cache, i: nat, ext: Ext)
    requires p.Ok() && Excluded(p, al) && i < |p.exts|
    requires ext == p.exts[i].(rsLeft := ext.rsLeft, rsFailed := ext.rsFailed)
    ensures var q := p.(exts := p.exts[i := ext]); q.Ok() && Excluded(q, al) && Kept(p, q)
  {
    hide Cache.Valid;
    var q := p.(exts := p.exts[i := ext]);
    forall j | 0 <= j < |q.exts| ensures q.ExtOk(j) {
      assert p.ExtOk(j);
    }
    if p.wenr != LC_FREE {
      var h :| 0 <= h < |p.exts| && p.lru.slots[h].number == p.wenr && p.exts[h].HalfLocked();
      assert q.exts[h].HalfLocked();
    }
  }

  /** A lookup that only marks the cache as starving keeps the locks. */
  lemma StarvingOk(p: Peer, al: Cache, c: Cache)
    requires p.Ok() && Excluded(p, al) && c == p.lru.(starving := c.starving)
    ensures var q := p.(lru := c); q.Ok() && Excluded(q, al) && Kept(p, q)
  {
    var q := p.(lru := c);
    assert c.Valid();
    forall j | 0 <= j < |q.exts| ensures q.ExtOk(j) {
      assert p.ExtOk(j);
    }
    if p.wenr != LC_FREE {
      var h :| 0 <= h < |p.exts| && p.lru.slots[h].number == p.wenr && p.exts[h].HalfLocked();
      assert q.exts[h].HalfLocked();
    }
    forall e ensures q.Grants(e) == p.Grants(e) {
      SameFind(p.lru, c, e);
    }
  }

  /** Pulling an extent into an unreferenced slot keeps the locks. */
  lemma PulledOk(p: Peer, al: Cache, c: Cache, i: nat, enr: nat, ext: Ext)
    requires p.Ok() && Excluded(p, al) && i < |p.exts| && p.lru.slots[i].refcnt == 0 && enr != LC_FREE
    requires |p.exts| == |p.lru.slots| && c == p.lru.(slots := p.lru.slots[i := Slot(enr, enr, 0)]) && c.Valid()
    requires !ext.noWrites && !ext.locked && !ext.priority
    ensures var q := p.(lru := c, exts := p.exts[i := ext]); q.Ok() && Excluded(q, al) && Kept(p, q)
  {
    var q := p.(lru := c, exts := p.exts[i := ext]);
    assert p.ExtOk(i);
    forall j | 0 <= j < |q.exts| ensures q.ExtOk(j) && !q.lru.slots[j].Pending() {
      assert p.ExtOk(j);
    }
    if p.wenr != LC_FREE {
      var h :| 0 <= h < |p.exts| && p.lru.slots[h].number == p.wenr && p.exts[h].HalfLocked();
      assert p.ExtOk(h);
      assert q.exts[h].HalfLocked() && q.lru.slots[h].number == q.wenr;
    }
    forall e ensures q.Grants(e) == p.Grants(e) {
      MissGrants(p, q, i, e);
    }
  }

  /** What a lookup of extent `enr` that may pull it in leaves of the cache. */
  ghost predicate Looked(p: Peer, q: Peer, enr: nat) {
    && (q.lru.starving <==>
          p.lru.starving || (p.lru.Find(enr, false).None? && !p.lru.locked && !p.lru.UnusedAvailable()))
    && (p.lru.starving || p.lru.locked || !p.lru.UnusedAvailable() || p.lru.Find(enr, false).Some? ==>
          q.lru.slots == p.lru.slots)
    && (p.lru.starving ==> q == p)
    && |q.lru.slots| == |p.lru.slots|
    && (forall i :: 0 <= i < |p.lru.slots| ==> q.lru.slots[i] == p.lru.slots[i] || q.lru.slots[i].number == enr)
    && (Fetchable(p.lru, enr) ==> q.lru.Find(enr, false).Some?)
  }

  lemma StarvingLooked(p: Peer, q: Peer, enr: nat)
    requires Looked(p, q, enr)
    ensures p.lru.starving ==> q == p
  {
  }

  /** A refused lookup leaves the counts as they were. */
  lemma Refused(p: Peer, enr: nat, c: Cache, pages: seq<Page>, peers: nat, k: nat, bits: nat, owed: map<nat, int>,
                owed': map<nat, int>)
    requires Committed(p.lru, p.exts) && enr != LC_FREE && !Fetchable(p.lru, enr) && OwedOnlyOn(owed, owed', enr)
    requires c == p.lru.(starving :=
               p.lru.starving || (p.lru.Find(enr, false).None? && !p.lru.locked && !p.lru.UnusedAvailable()))
    ensures Looked(p, p.(lru := c), enr)
    ensures CountsOwed(p.lru, p.exts, pages, peers, k, bits, owed) ==>
              (CountsOwed(c, p.exts, pages, peers, k, bits, owed')
               <==> p.lru.Find(enr, false).None? || Owed(owed', enr) == Owed(owed, enr))
  {
    hide ExtWeight, CountsOwed, Owed;
    SameFind(p.lru, c, enr);
    if CountsOwed(p.lru, p.exts, pages, peers, k, bits, owed) {
      SameSlots(p.lru, p.exts, pages, peers, k, bits, owed, owed', enr, c);
    }
  }

  lemma LookedUp(p: Peer, q: Peer, enr: nat, i: nat)
    requires Committed(p.lru, p.exts) && q.lru.Valid() && enr != LC_FREE && Fetchable(p.lru, enr) && i < |p.lru.slots|
    requires if p.lru.slots[i].number == enr then q.lru == p.lru
             else p.lru.Find(enr, false).None? && q.lru == p.lru.(slots := p.lru.slots[i := Slot(enr, enr, 0)])
    ensures Looked(p, q, enr)
  {
    FindValid(q.lru, i);
  }

  /** A lookup that found extent `enr` in slot `i`, or pulled it in there, with its new counts. */
  lemma Fetched(p: Peer, al: Cache, c: Cache, enr: nat, i: nat, ext: Ext, pages: seq<Page>, peers: nat, k: nat,
                bits: nat, owed: map<nat, int>, owed': map<nat, int>)
    requires p.Ok() && Excluded(p, al) && enr != LC_FREE && Fetchable(p.lru, enr) && i < |p.exts| == |p.lru.slots|
    requires c.Valid()
    requires OwedOnlyOn(owed, owed', enr)
    requires if p.lru.slots[i].number == enr
             then c == p.lru && ext == p.exts[i].(rsLeft := ext.rsLeft, rsFailed := ext.rsFailed)
             else
               && p.lru.Find(enr, false).None? && p.lru.slots[i].refcnt == 0
               && c == p.lru.(slots := p.lru.slots[i := Slot(enr, enr, 0)]) && !ext.noWrites && !ext.locked
               && !ext.priority
    ensures var q := p.(lru := c, exts := p.exts[i := ext]);
      q.Ok() && Excluded(q, al) && Kept(p, q) && Looked(p, q, enr)
    ensures CountsOwed(p.lru, p.exts, pages, peers, k, bits, owed) ==>
              (CountsOwed(c, p.exts[i := ext], pages, peers, k, bits, owed')
               <==> ext.rsLeft == ExtWeight(pages, peers, k, bits, enr) + Owed(owed', enr))
  {
    hide ExtWeight, Kept, Excluded, Peer.Ok, Cache.Find, Fetchable, Looked, CountsOwed, Owed, OwedOnlyOn;
    OkIsCommitted(p);
    LookedUp(p, p.(lru := c, exts := p.exts[i := ext]), enr, i);
    if p.lru.slots[i].number == enr {
      CountsOk(p, al, i, ext);
    } else {
      PulledOk(p, al, c, i, enr, ext);
    }
    if CountsOwed(p.lru, p.exts, pages, peers, k, bits, owed) {
      OneCount(p.lru, p.exts, pages, peers, k, bits, owed, owed', enr, i, c, ext);
    }
  }

  /** `ext` is `was` with new counts: those of an extent cached before, or of one just pulled in. */
  ghost predicate Recounting(was: Ext, cached: bool, count: int, mode: Mode, weight: int, resetFailed: bool, ext: Ext,
                             cleared: bool) {
    var failed := (if cached then was.rsFailed else 0) + if mode.RecordRsFailed? then count else 0;
    var left := was.rsLeft - Off(mode, count);
    && ext == (if cached then was else was.NoFlags()).(rsLeft := ext.rsLeft, rsFailed := ext.rsFailed)
    && ext.rsLeft == (if cached && left >= failed then left else weight)
    && (cleared <==> ext.rsLeft <= failed) && ext.rsFailed == if cleared && resetFailed then 0 else failed
  }

  lemma RecountingParts(was: Ext, cached: bool, count: int, mode: Mode, weight: int, resetFailed: bool, ext: Ext,
                        cleared: bool)
    requires Recounting(was, cached, count, mode, weight, resetFailed, ext, cleared)
    ensures ext == (if cached then was else was.NoFlags()).(rsLeft := ext.rsLeft, rsFailed := ext.rsFailed)
  {
  }

  lemma FoundAt(lru: Cache, exts: seq<Ext>, enr: nat, i: nat)
    requires Committed(lru, exts) && i < |exts| && lru.slots[i].number == enr != LC_FREE
    ensures lru.Find(enr, false) == Some(i)
  {
    FindValid(lru, i);
  }

  /** A cached count, and what is owed to it. */
  lemma CountIs(p: Peer, pages: seq<Page>, peers: nat, k: nat, bits: nat, owed: map<nat, int>, enr: nat, i: nat)
    requires CountsOwed(p.lru, p.exts, pages, peers, k, bits, owed) && p.lru.Find(enr, false) == Some(i)
    ensures p.exts[i].rsLeft == ExtWeight(pages, peers, k, bits, enr) + Owed(owed, enr)
  {
    hide ExtWeight;
  }

  lemma PaidOnly(owed: map<nat, int>, enr: nat, n: int)
    ensures OwedOnlyOn(owed, Paid(owed, enr, n), enr) && Owed(Paid(owed, enr, n), enr) == Owed(owed, enr) - n
  {
  }

  lemma RefusedPays(lru: Cache, exts: seq<Ext>, owed: map<nat, int>, enr: nat, mode: Mode, count: int)
    requires !Fetchable(lru, enr) && !mode.SetOutOfSync?
    ensures Pays(lru, exts, owed, enr, mode, count) <==> lru.Find(enr, false).None? || Off(mode, count) == 0
  {
    hide Cache.Find;
  }

  /** An update that is the only one outstanding. */
  lemma LastPays(lru: Cache, exts: seq<Ext>, enr: nat, mode: Mode, count: int)
    requires count != 0 && |exts| == |lru.slots|
    ensures var owed := Paid(map[], enr, -Off(mode, count));
      && (Pays(lru, exts, owed, enr, mode, count) <==> !(mode.SetInSync? && lru.starving && lru.Find(enr, false).Some?))
      && forall e: nat :: Owed(Paid(owed, enr, Off(mode, count)), e) == 0
  {
    hide Fetchable;
  }

  lemma NotCachedPays(p: Peer, enr: nat, count: int, pages: seq<Page>, peers: nat, k: nat, bits: nat,
                      owed: map<nat, int>)
    requires CountsOwed(p.lru, p.exts, pages, peers, k, bits, owed) && enr != LC_FREE && p.lru.Find(enr, false).None?
    ensures CountsOwed(p.lru, p.exts, pages, peers, k, bits, Paid(owed, enr, -count))
    ensures Pays(p.lru, p.exts, owed, enr, SetOutOfSync, count)
  {
    hide ExtWeight;
    PaidOnly(owed, enr, -count);
    SameSlots(p.lru, p.exts, pages, peers, k, bits, owed, Paid(owed, enr, -count), enr, p.lru);
  }

  /** Adding newly set bits to the count of a cached extent. */
  lemma AddedPays(p: Peer, enr: nat, i: nat, count: int, ext: Ext, pages: seq<Page>, peers: nat, k: nat, bits: nat,
                  owed: map<nat, int>)
    requires CountsOwed(p.lru, p.exts, pages, peers, k, bits, owed) && enr != LC_FREE
    requires p.lru.Find(enr, false) == Some(i)
    requires ext.rsLeft == if p.exts[i].rsLeft + count < p.exts[i].rsFailed then ExtWeight(pages, peers, k, bits, enr)
                           else p.exts[i].rsLeft + count
    ensures CountsOwed(p.lru, p.exts[i := ext], pages, peers, k, bits, Paid(owed, enr, -count))
            <==> Pays(p.lru, p.exts, owed, enr, SetOutOfSync, count)
  {
    hide ExtWeight, Cache.Find;
    CountIs(p, pages, peers, k, bits, owed, enr, i);
    PaidOnly(owed, enr, -count);
    OneCount(p.lru, p.exts, pages, peers, k, bits, owed, Paid(owed, enr, -count), enr, i, p.lru, ext);
  }

  /** What the recount leaves in the slot, and whether it leaves what is owed. */
  lemma RecountingPays(p: Peer, lru: Cache, enr: nat, i: nat, count: int, mode: Mode, resetFailed: bool, ext: Ext,
                       cleared: bool, pages: seq<Page>, peers: nat, k: nat, bits: nat, owed: map<nat, int>)
    requires Committed(p.lru, p.exts) && enr != LC_FREE && i < |p.exts| && Fetchable(p.lru, enr) && !mode.SetOutOfSync?
    requires if p.lru.slots[i].number == enr then p.lru.Find(enr, false) == Some(i) else p.lru.Find(enr, false).None?
    requires |lru.slots| == |p.lru.slots| && lru.slots[i].number == enr
    requires Recounting(p.exts[i], p.lru.slots[i].number == enr, count, mode, ExtWeight(pages, peers, k, bits, enr),
                        resetFailed, ext, cleared)
    ensures Tallied(lru, p.exts[i := ext], enr, Some(i), FailedCount(p.lru, p.exts, enr, mode, count), resetFailed,
                    cleared)
    ensures CountsOwed(p.lru, p.exts, pages, peers, k, bits, owed) ==>
              (ext.rsLeft == ExtWeight(pages, peers, k, bits, enr) + Owed(Paid(owed, enr, Off(mode, count)), enr)
               <==> Pays(p.lru, p.exts, owed, enr, mode, count))
  {
    hide ExtWeight, Cache.Find;
  }

  /** Locking, unlocking and looking at resync extents leaves what is owed. */
  lemma SameCountsOwed(p: Peer, q: Peer, pages: seq<Page>, peers: nat, k: nat, bits: nat, owed: map<nat, int>)
    requires CountsOwed(p.lru, p.exts, pages, peers, k, bits, owed) && SameCounts(p, q) && q.Ok()
    ensures CountsOwed(q.lru, q.exts, pages, peers, k, bits, owed)
  {
    hide ExtWeight, Owed;
  }

  /** Pulling in an extent with its current weight does so exactly if nothing is owed to the extent. */
  lemma RecountedOwed(p: Peer, q: Peer, enr: nat, pages: seq<Page>, peers: nat, k: nat, bits: nat, owed: map<nat, int>)
    requires CountsOwed(p.lru, p.exts, pages, peers, k, bits, owed) && q.Ok() && enr != LC_FREE
    requires Recounted(p, q, enr, ExtWeight(pages, peers, k, bits, enr))
    ensures CountsOwed(q.lru, q.exts, pages, peers, k, bits, owed)
            <==> Owed(owed, enr) == 0 || p.lru.Find(enr, false).Some? || q.lru.Find(enr, false).None?
  {
    hide ExtWeight, Owed;
    var f := q.lru.Find(enr, false);
    if f.Some? {
      FindValid(q.lru, f.value);
    } else {
      forall i | 0 <= i < |q.exts| && !q.lru.slots[i].Free() ensures q.lru.slots[i].number != enr {
        assert !q.lru.slots[i].Pending();
      }
    }
  }
}

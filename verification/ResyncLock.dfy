/**
 * Locking between application IO (activity-log extents of 4 MiB) and resync (extents of 128 MiB per peer).
 * Every method is one region under `al_lock`, so any interleaving of threads is some sequence of calls.
 */
module ResyncLock {
  import opened Options
  import opened LruCache
  import opened AlRefs

  /** Activity-log extents per resync extent. */
  const AL_EXT_PER_BM_SECT := 32

  /** `struct bm_extent` without its cache element: BME_NO_WRITES, BME_LOCKED, BME_PRIORITY and the cached counts. */
  datatype Ext = Ext(noWrites: bool, locked: bool, priority: bool, rsLeft: int, rsFailed: int) {
    function NoFlags(): Ext {
      this.(noWrites := false, locked := false, priority := false)
    }

    predicate HalfLocked() { noWrites && !locked }
  }

  datatype Peer = Peer(pro: nat, lru: Cache, exts: seq<Ext>, wenr: nat, resyncLocked: int) {

    ghost predicate Ok() {
      && lru.Valid() && lru.maxPending > 0 && lru.pending == 0
      && |exts| == |lru.slots|
      && (forall i :: 0 <= i < |exts| ==> !lru.slots[i].Pending() && ExtOk(i))
      && (wenr != LC_FREE ==> exists i :: 0 <= i < |exts| && lru.slots[i].number == wenr && exts[i].HalfLocked())
      && resyncLocked == lru.used
    }

    /** Referenced means no writes; a half-locked extent is the remembered one, with a single reference. */
    ghost predicate ExtOk(i: nat)
      requires i < |exts| == |lru.slots|
    {
      && (exts[i].noWrites <==> lru.slots[i].refcnt > 0)
      && (exts[i].locked ==> exts[i].noWrites)
      && (exts[i].priority ==> exts[i].noWrites)
      && (exts[i].HalfLocked() ==> lru.slots[i].number == wenr != LC_FREE && lru.slots[i].refcnt == 1)
    }

    /** Outstanding successful resync begins on extent `enr`. */
    ghost function Grants(enr: nat): nat {
      var e := lru.Find(enr, false);
      if e.Some? && e.value < |exts| && exts[e.value].locked then lru.slots[e.value].refcnt else 0
    }

    /** Gives up one reference on slot `i`; at zero all flags go. */
    function Release(i: nat): Peer
      requires i < |exts| == |lru.slots| && lru.slots[i].refcnt > 0 && !lru.slots[i].Pending() && lru.used > 0
    {
      var lru' := lru.Put(i);
      if lru'.slots[i].refcnt == 0 then
        this.(lru := lru', exts := exts[i := exts[i].NoFlags()], resyncLocked := resyncLocked - 1)
      else
        this.(lru := lru')
    }
  }

  function NoWritesCount(exts: seq<Ext>): nat {
    if exts == [] then 0
    else NoWritesCount(exts[..|exts| - 1]) + if exts[|exts| - 1].noWrites then 1 else 0
  }

  /** `resync_locked` is the number of extents flagged BME_NO_WRITES. */
  lemma LockedIsNoWritesCount(p: Peer)
    requires p.Ok()
    ensures p.resyncLocked == NoWritesCount(p.exts)
  {
    forall i | 0 <= i < |p.exts| ensures p.exts[i].noWrites <==> p.lru.slots[i].refcnt > 0 {
      assert p.ExtOk(i);
    }
    UsedIsNoWrites(p.lru.slots, p.exts);
  }

  lemma {:induction false} UsedIsNoWrites(slots: seq<Slot>, exts: seq<Ext>)
    requires |slots| == |exts|
    requires forall i :: 0 <= i < |exts| ==> (exts[i].noWrites <==> slots[i].refcnt > 0)
    ensures Count(slots, UsedSlot) == NoWritesCount(exts)
  {
    if exts != [] {
      UsedIsNoWrites(slots[..|slots| - 1], exts[..|exts| - 1]);
    }
  }

  /** `q` has the same extents in its slots as `p`, with the same counts. */
  ghost predicate SameCounts(p: Peer, q: Peer) {
    && |q.exts| == |p.exts| && |q.lru.slots| == |p.lru.slots|
    && (forall i :: 0 <= i < |p.exts| ==>
          q.exts[i].rsLeft == p.exts[i].rsLeft && q.exts[i].rsFailed == p.exts[i].rsFailed)
    && (forall i :: 0 <= i < |p.lru.slots| ==>
          q.lru.slots[i].number == p.lru.slots[i].number && q.lru.slots[i].newNumber == p.lru.slots[i].newNumber)
  }

  /** The same, except that extent `enr` may have been pulled in with count `weight`. */
  ghost predicate Recounted(p: Peer, q: Peer, enr: nat, weight: int) {
    && |q.exts| == |p.exts| && |q.lru.slots| == |p.lru.slots|
    && forall i :: 0 <= i < |p.exts| && i < |p.lru.slots| ==>
         || (&& q.exts[i].rsLeft == p.exts[i].rsLeft && q.lru.slots[i].number == p.lru.slots[i].number
             && q.lru.slots[i].newNumber == p.lru.slots[i].newNumber)
         || (&& q.exts[i].rsLeft == weight && q.exts[i].rsFailed == 0
             && q.lru.slots[i].number == q.lru.slots[i].newNumber == enr != p.lru.slots[i].number)
  }

  lemma SameCountsTrans(p: Peer, q: Peer, r: Peer)
    requires SameCounts(p, q) && SameCounts(q, r)
    ensures SameCounts(p, r)
  {
  }

  lemma RecountedVia(p: Peer, q: Peer, r: Peer, t: Peer, enr: nat, weight: int)
    requires SameCounts(p, q) && Recounted(q, r, enr, weight) && SameCounts(r, t)
    ensures Recounted(p, t, enr, weight)
  {
  }

  lemma SameIsRecounted(p: Peer, q: Peer, enr: nat, weight: int)
    requires SameCounts(p, q)
    ensures Recounted(p, q, enr, weight)
  {
  }

  /** Application IO is waiting for extent `enr`. */
  predicate Prior(p: Peer, enr: nat) {
    var e := p.lru.Find(enr, false);
    e.Some? && e.value < |p.exts| && p.exts[e.value].priority
  }

  /** Extent `enr` is cached, and nothing holds it: no reference, no flag. */
  ghost predicate GivenUp(p: Peer, enr: nat) {
    var e := p.lru.Find(enr, false);
    && p.wenr == LC_FREE && e.Some? && e.value < |p.exts| && p.lru.slots[e.value].refcnt == 0
    && !p.exts[e.value].noWrites && !p.exts[e.value].locked && !p.exts[e.value].priority
  }

  /** Extent `enr` is half-locked, with one reference, and remembered. */
  ghost predicate Remembered(p: Peer, enr: nat) {
    var e := p.lru.Find(enr, false);
    && p.wenr == enr && e.Some? && e.value < |p.exts| && p.lru.slots[e.value].refcnt == 1
    && p.exts[e.value].noWrites && !p.exts[e.value].locked
  }

  /** What `lc_try_get` finds is the extent's slot. */
  lemma HitKeeps(p: Peer, enr: nat, victim: nat)
    requires p.Ok() && enr != LC_FREE && (p.lru.UnusedAvailable() ==> p.lru.Recyclable(victim))
    ensures var (c, e) := p.lru.Get(enr, false, false, victim);
      e.Some? ==>
        && e == p.lru.Find(enr, false) && e.value < |p.exts| && !c.starving && c.locked == p.lru.locked
        && (p.exts[e.value].priority <==> Prior(p, enr)) && (!p.exts[e.value].locked ==> p.Grants(enr) == 0)
  {
    var e := p.lru.Find(enr, true);
    if e.Some? {
      FindValid(p.lru, e.value);
    }
  }

  lemma CountsRefl(p: Peer, enr: nat, weight: int)
    ensures SameCounts(p, p) && Recounted(p, p, enr, weight)
  {
  }

  lemma HalfLockedIs(p: Peer, i: nat)
    requires p.Ok() && i < |p.exts| && p.lru.slots[i].number == p.wenr != LC_FREE
    ensures p.exts[i].HalfLocked()
  {
  }

  lemma ReleaseHalfLocked(p: Peer, i: nat)
    requires p.Ok() && i < |p.exts| && p.exts[i].HalfLocked()
    ensures p.lru.used > 0
    ensures var r := p.(wenr := LC_FREE).Release(i);
      && r.Ok() && r.wenr == LC_FREE && !r.exts[i].noWrites && SameCounts(p, r)
      && forall enr :: r.Grants(enr) == p.Grants(enr)
  {
    PutValid(p.lru, i);
    var r := p.(wenr := LC_FREE).Release(i);
    forall enr ensures r.Grants(enr) == p.Grants(enr) {
      SameFind(p.lru, r.lru, enr);
    }
  }

  lemma SameFind(c: Cache, d: Cache, enr: nat)
    requires |c.slots| == |d.slots|
    requires forall i :: 0 <= i < |c.slots| ==>
               c.slots[i].number == d.slots[i].number && c.slots[i].newNumber == d.slots[i].newNumber
    ensures c.Find(enr, false) == d.Find(enr, false)
    ensures c.Find(enr, true) == d.Find(enr, true)
  {
    SameFindFrom(c, d, enr, false, 0);
    SameFindFrom(c, d, enr, true, 0);
  }

  lemma {:induction false} SameFindFrom(c: Cache, d: Cache, enr: nat, inc: bool, from: nat)
    requires |c.slots| == |d.slots| && from <= |c.slots|
    requires forall i :: 0 <= i < |c.slots| ==>
               c.slots[i].number == d.slots[i].number && c.slots[i].newNumber == d.slots[i].newNumber
    ensures c.FindFrom(enr, inc, from) == d.FindFrom(enr, inc, from)
    decreases |c.slots| - from
  {
    if from < |c.slots| {
      SameFindFrom(c, d, enr, inc, from + 1);
    }
  }

  /** No resync extent of this peer that covers activity-log extent `enr` has BME_NO_WRITES set. */
  ghost predicate Unblocked(p: Peer, enr: nat) {
    p.pro <= 112 ==>
      forall i :: 0 <= i < |p.exts| && i < |p.lru.slots| && p.lru.slots[i].number == enr / AL_EXT_PER_BM_SECT ==>
        !p.exts[i].noWrites
  }

  /** No referenced activity-log extent lies in a locked resync extent of this peer. */
  ghost predicate Excluded(p: Peer, al: Cache) {
    p.pro <= 112 ==>
      forall i, j | 0 <= i < |p.exts| && i < |p.lru.slots| && p.exts[i].locked && 0 <= j < |al.slots|
                    && al.slots[j].refcnt > 0 ::
        al.slots[j].newNumber / AL_EXT_PER_BM_SECT != p.lru.slots[i].number
  }

  /** `q` is `p` with BME_PRIORITY set on its no-writes extent covering `enr`, if there is one. */
  ghost predicate Prioritized(p: Peer, q: Peer, enr: nat) {
    && q == p.(exts := q.exts) && |p.exts| == |q.exts| == |p.lru.slots|
    && forall i :: 0 <= i < |p.exts| ==>
         q.exts[i] == if p.pro <= 112 && p.exts[i].noWrites && p.lru.slots[i].number == enr / AL_EXT_PER_BM_SECT
                      then p.exts[i].(priority := true) else p.exts[i]
  }

  /** The no-writes extent over `enr` is the one `lc_find` returns. */
  lemma CoveringExt(p: Peer, enr: nat, i: nat)
    requires p.Ok() && i < |p.exts| && p.exts[i].noWrites && p.lru.slots[i].number == enr
    ensures p.lru.Find(enr, false) == Some(i)
  {
    assert p.ExtOk(i);
    FindValid(p.lru, i);
  }

  lemma PrioritizedSame(p: Peer, enr: nat)
    requires p.Ok()
    requires var e := p.lru.Find(enr / AL_EXT_PER_BM_SECT, false);
      p.pro <= 112 && e.Some? && e.value < |p.exts| ==> !p.exts[e.value].noWrites
    ensures Prioritized(p, p, enr)
  {
    forall i | 0 <= i < |p.exts| && p.exts[i].noWrites && p.lru.slots[i].number == enr / AL_EXT_PER_BM_SECT
      ensures p.pro > 112
    {
      CoveringExt(p, enr / AL_EXT_PER_BM_SECT, i);
    }
  }

  lemma PriorityOk(p: Peer, i: nat, enr: nat, al: Cache)
    requires p.Ok() && p.pro <= 112 && p.lru.Find(enr / AL_EXT_PER_BM_SECT, false) == Some(i)
    requires i < |p.exts| && p.exts[i].noWrites && Excluded(p, al)
    ensures var q := p.(exts := p.exts[i := p.exts[i].(priority := true)]);
      q.Ok() && Excluded(q, al) && Prioritized(p, q, enr)
  {
    var q := p.(exts := p.exts[i := p.exts[i].(priority := true)]);
    forall j | 0 <= j < |q.exts| ensures q.ExtOk(j) {
      assert p.ExtOk(j);
    }
    if p.wenr != LC_FREE {
      var h :| 0 <= h < |p.exts| && p.lru.slots[h].number == p.wenr && p.exts[h].HalfLocked();
      assert q.exts[h].HalfLocked();
    }
    forall j | 0 <= j < |p.exts| && p.exts[j].noWrites && p.lru.slots[j].number == enr / AL_EXT_PER_BM_SECT
      ensures j == i
    {
      CoveringExt(p, enr / AL_EXT_PER_BM_SECT, j);
    }
    assert !p.lru.slots[i].Pending();
  }

  lemma SameSizes(p: Peer)
    requires p.Ok()
    ensures |p.exts| == |p.lru.slots|
  {
  }

  lemma PrioritizedGrants(p: Peer, q: Peer, enr: nat)
    requires Prioritized(p, q, enr)
    ensures p.pro == q.pro && SameCounts(p, q) && forall e :: p.Grants(e) == q.Grants(e)
  {
  }

  /** Every peer has the same grants, extents and counts as before. */
  ghost predicate SameGrants(was: seq<Peer>, now: seq<Peer>) {
    && |now| == |was|
    && forall q :: 0 <= q < |was| ==>
         && now[q].pro == was[q].pro && SameCounts(was[q], now[q]) && forall e :: now[q].Grants(e) == was[q].Grants(e)
  }

  lemma SameGrantsRefl(peers: seq<Peer>)
    ensures SameGrants(peers, peers)
  {
  }

  lemma SameSize(was: seq<Peer>, now: seq<Peer>)
    requires SameGrants(was, now)
    ensures |now| == |was|
  {
  }

  lemma SameGrantsTrans(p: seq<Peer>, q: seq<Peer>, r: seq<Peer>)
    requires SameGrants(p, q) && SameGrants(q, r)
    ensures SameGrants(p, r)
  {
    hide Peer.Grants, SameCounts;
    forall i | 0 <= i < |p| ensures SameCounts(p[i], r[i]) {
      SameCountsTrans(p[i], q[i], r[i]);
    }
  }

  /** Resync for a peer that must be kept apart from application IO holds the resync extent over `enr`. */
  ghost predicate Granted(peers: seq<Peer>, enr: nat) {
    exists q :: 0 <= q < |peers| && peers[q].pro <= 112 && peers[q].Grants(enr / AL_EXT_PER_BM_SECT) > 0
  }

  /** Every peer whose resync is in the way of `enr` has been asked to hurry. */
  ghost predicate Hurried(peers: seq<Peer>, enr: nat) {
    forall q :: 0 <= q < |peers| && peers[q].pro <= 112 && peers[q].Grants(enr / AL_EXT_PER_BM_SECT) > 0 ==>
      Prior(peers[q], enr / AL_EXT_PER_BM_SECT)
  }

  /** The first extent of the range that resync is in the way of is `x`, and its holders have been asked to hurry. */
  ghost predicate HurriedAt(was: seq<Peer>, now: seq<Peer>, first: nat, x: nat) {
    first <= x && Granted(was, x) && Hurried(now, x) && forall y: nat :: first <= y < x ==> !Granted(was, y)
  }

  lemma GrantedHurries(p: Peer, q: Peer, enr: nat)
    requires p.Ok() && Prioritized(p, q, enr) && q.pro <= 112 && q.Grants(enr / AL_EXT_PER_BM_SECT) > 0
    ensures Prior(q, enr / AL_EXT_PER_BM_SECT)
  {
    var e := q.lru.Find(enr / AL_EXT_PER_BM_SECT, false);
    assert p.ExtOk(e.value);
  }

  lemma SameGranted(p: seq<Peer>, q: seq<Peer>, enr: nat)
    requires SameGrants(p, q)
    ensures Granted(p, enr) == Granted(q, enr)
  {
    hide Peer.Grants, SameCounts;
    if i :| 0 <= i < |p| && p[i].pro <= 112 && p[i].Grants(enr / AL_EXT_PER_BM_SECT) > 0 {
      assert q[i].pro <= 112 && q[i].Grants(enr / AL_EXT_PER_BM_SECT) > 0;
    }
    if i :| 0 <= i < |q| && q[i].pro <= 112 && q[i].Grants(enr / AL_EXT_PER_BM_SECT) > 0 {
      assert p[i].pro <= 112 && p[i].Grants(enr / AL_EXT_PER_BM_SECT) > 0;
    }
  }

  lemma NoneGranted(peers: seq<Peer>, enr: nat)
    requires forall q :: 0 <= q < |peers| ==> peers[q].Ok() && Unblocked(peers[q], enr)
    ensures !Granted(peers, enr)
  {
    hide Peer.Grants, Peer.Ok, Unblocked;
    forall q | 0 <= q < |peers| && peers[q].pro <= 112 ensures peers[q].Grants(enr / AL_EXT_PER_BM_SECT) == 0 {
      UnblockedNoGrant(peers[q], enr);
    }
  }

  lemma UnblockedNoGrant(p: Peer, enr: nat)
    requires p.Ok() && p.pro <= 112 && Unblocked(p, enr)
    ensures p.Grants(enr / AL_EXT_PER_BM_SECT) == 0
  {
    var e := p.lru.Find(enr / AL_EXT_PER_BM_SECT, false);
    if e.Some? {
      assert p.ExtOk(e.value);
    }
  }

  /** Taking a reference where no resync extent blocks it keeps resync and application IO apart. */
  lemma GetExcluded(p: Peer, al: Cache, enr: nat, mayChange: bool, mayUseUncommitted: bool, victim: nat)
    requires p.Ok() && al.Valid() && enr != LC_FREE && (al.UnusedAvailable() ==> al.Recyclable(victim))
    requires Excluded(p, al) && Unblocked(p, enr)
    ensures Excluded(p, al.Get(enr, mayChange, mayUseUncommitted, victim).0)
  {
    forall i | 0 <= i < |p.exts| && p.exts[i].locked ensures p.exts[i].noWrites {
      assert p.ExtOk(i);
    }
  }

  /** Extent `enr` sits half-locked in slot `i`; only `resync_wenr` may not say so yet. */
  ghost predicate Taken(p: Peer, i: nat, enr: nat) {
    && enr != LC_FREE && p.(wenr := enr).Ok()
    && i < |p.exts| && p.lru.slots[i].number == enr && p.exts[i].HalfLocked()
  }

  lemma TakenIsCached(p: Peer, q: Peer, i: nat, enr: nat)
    requires Taken(p, i, enr) && SameCounts(p, q)
    ensures q.lru.Find(enr, false).Some?
  {
    hide LruCache.Count;
    FindValid(p.lru, i);
    SameFind(p.lru, q.lru, enr);
  }

  lemma MoreGrants(p: Peer, q: Peer, enr: nat)
    requires GrantsGrow(p, q, enr, 1) && p.Grants(enr) > 0
    ensures q.lru.Find(enr, false).Some?
  {
    assert q.Grants(enr) == p.Grants(enr) + 1;
  }

  lemma SameCached(p: Peer, q: Peer, enr: nat)
    requires SameCounts(p, q)
    ensures q.lru.Find(enr, false) == p.lru.Find(enr, false)
  {
    SameFind(p.lru, q.lru, enr);
  }

  /** All outstanding begins are the same, except for `n` more on `enr`. */
  ghost predicate GrantsGrow(p: Peer, q: Peer, enr: nat, n: int) {
    forall e :: q.Grants(e) == p.Grants(e) + if e == enr then n else 0
  }

  /** A begin on an extent that is locked already adds one reference. */
  lemma LockedHit(p: Peer, enr: nat, victim: nat, i: nat, al: Cache)
    requires p.Ok() && Excluded(p, al) && enr != LC_FREE && (p.lru.UnusedAvailable() ==> p.lru.Recyclable(victim))
    requires p.lru.Get(enr, false, false, victim).1 == Some(i) && p.exts[i].locked
    ensures var q := p.(lru := p.lru.Get(enr, false, false, victim).0, wenr := LC_FREE);
      p.wenr in {LC_FREE, enr} ==>
        q.Ok() && GrantsGrow(p, q, enr, 1) && Excluded(q, al) && p.Grants(enr) > 0 && SameCounts(p, q)
  {
    hide Count;
    FindValid(p.lru, i);
    if p.wenr in {LC_FREE, enr} {
      GetValid(p.lru, enr, false, false, victim);
      var q := p.(lru := p.lru.Get(enr, false, false, victim).0, wenr := LC_FREE);
      forall e ensures q.Grants(e) == p.Grants(e) + if e == enr then 1 else 0 {
        SameFind(p.lru, q.lru, e);
      }
    }
  }

  /** A begin on a cached, unreferenced extent half-locks it. */
  lemma FreshHit(p: Peer, enr: nat, victim: nat, i: nat, al: Cache)
    requires p.Ok() && Excluded(p, al) && p.wenr in {LC_FREE, enr} && enr != LC_FREE
    requires p.lru.UnusedAvailable() ==> p.lru.Recyclable(victim)
    requires p.lru.Get(enr, false, false, victim).1 == Some(i) && !p.exts[i].noWrites
    ensures var q := p.(lru := p.lru.Get(enr, false, false, victim).0,
                        exts := p.exts[i := p.exts[i].(noWrites := true)],
                        resyncLocked := p.resyncLocked + 1);
      Taken(q, i, enr) && GrantsGrow(p, q, enr, 0) && Excluded(q, al) && SameCounts(p, q) && p.wenr == LC_FREE
  {
    GetValid(p.lru, enr, false, false, victim);
    var q := p.(lru := p.lru.Get(enr, false, false, victim).0, exts := p.exts[i := p.exts[i].(noWrites := true)],
                resyncLocked := p.resyncLocked + 1);
    assert p.wenr != enr by {
      if p.wenr == enr {
        HalfLockedIs(p, i);
      }
    }
    forall e ensures q.Grants(e) == p.Grants(e) {
      SameFind(p.lru, q.lru, e);
    }
  }

  /** Trying again on the half-locked extent: the reference just taken is dropped again. */
  lemma RetryHit(p: Peer, enr: nat, victim: nat, i: nat)
    requires p.Ok() && p.wenr in {LC_FREE, enr} && enr != LC_FREE
    requires (p.lru.UnusedAvailable() ==> p.lru.Recyclable(victim))
    requires p.lru.Get(enr, false, false, victim).1 == Some(i) && p.exts[i].HalfLocked()
    ensures var c := p.lru.Get(enr, false, false, victim).0;
      && c.slots[i].refcnt == 2
      && c.(slots := c.slots[i := c.slots[i].(refcnt := 1)]) == p.lru
      && Taken(p, i, enr)
  {
    var c := p.lru.Get(enr, false, false, victim).0;
    assert c.slots[i := c.slots[i].(refcnt := 1)] == p.lru.slots;
  }

  lemma RetryRemembered(p: Peer, i: nat)
    requires p.Ok() && i < |p.exts| && p.exts[i].HalfLocked()
    ensures p.wenr != LC_FREE
  {
    assert p.ExtOk(i);
  }

  /** A begin on an extent that is not cached recycles a slot, commits it at once and half-locks it. */
  lemma FreshMiss(p: Peer, enr: nat, victim: nat, i: nat, weight: int, al: Cache)
    requires p.Ok() && Excluded(p, al) && p.wenr == LC_FREE && enr != LC_FREE
    requires (p.lru.UnusedAvailable() ==> p.lru.Recyclable(victim))
    requires p.lru.Find(enr, true).None? && p.lru.Get(enr, true, false, victim).1 == Some(i)
    ensures var q := p.(lru := p.lru.Get(enr, true, false, victim).0.Committed(),
                        exts := p.exts[i := p.exts[i].(rsLeft := weight, rsFailed := 0, noWrites := true)],
                        resyncLocked := p.resyncLocked + 1);
      && Taken(q, i, enr) && GrantsGrow(p, q, enr, 0) && Excluded(q, al) && Recounted(p, q, enr, weight)
      && !q.lru.starving && q.lru.locked == p.lru.locked && !q.exts[i].priority && p.Grants(enr) == 0
      && !Prior(p, enr)
  {
    hide Count;
    GetValid(p.lru, enr, true, false, victim);
    var c := p.lru.Get(enr, true, false, victim).0;
    CommittedValid(c);
    var q := p.(lru := c.Committed(),
                exts := p.exts[i := p.exts[i].(rsLeft := weight, rsFailed := 0, noWrites := true)],
                resyncLocked := p.resyncLocked + 1);
    assert p.ExtOk(i);
    assert q.exts[i].HalfLocked() && q.lru.slots[i].number == enr;
    forall e ensures q.Grants(e) == p.Grants(e) {
      MissGrants(p, q, i, e);
    }
  }

  /** Relabelling an unreferenced slot changes no outstanding begin. */
  lemma MissGrants(p: Peer, q: Peer, i: nat, e: nat)
    requires p.Ok() && q.lru.Valid() && |q.exts| == |p.exts| == |q.lru.slots| && i < |p.exts|
    requires !p.exts[i].locked && !q.exts[i].locked
    requires forall j :: 0 <= j < |p.exts| && j != i ==> q.lru.slots[j] == p.lru.slots[j] && q.exts[j] == p.exts[j]
    requires forall j :: 0 <= j < |p.exts| ==> !q.lru.slots[j].Pending()
    ensures q.Grants(e) == p.Grants(e)
  {
    var f, g := p.lru.Find(e, false), q.lru.Find(e, false);
    if f.Some? && f.value != i {
      FindValid(q.lru, f.value);
    } else if g.Some? && g.value != i {
      FindValid(p.lru, g.value);
    }
  }

  /** Turning a half lock into a full lock. */
  lemma LockTaken(p: Peer, i: nat, enr: nat, al: Cache)
    requires Taken(p, i, enr) && Excluded(p, al)
    requires p.pro <= 112 ==> forall j :: 0 <= j < |al.slots| && al.slots[j].refcnt > 0 ==>
               al.slots[j].newNumber / AL_EXT_PER_BM_SECT != enr
    ensures var q := p.(exts := p.exts[i := p.exts[i].(locked := true)], wenr := LC_FREE);
      q.Ok() && Excluded(q, al) && GrantsGrow(p, q, enr, 1)
  {
    var q := p.(exts := p.exts[i := p.exts[i].(locked := true)], wenr := LC_FREE);
    forall e ensures q.Grants(e) == p.Grants(e) + if e == enr then 1 else 0 {
      if e == enr {
        FindValid(p.lru, i);
      }
    }
  }

  /** Outcome of getting a resync extent into the cache. */
  datatype Take = Busy | Locked | Half(slot: nat)

  lemma OkParts(p: Peer, enr: nat)
    requires p.Ok()
    ensures p.lru.Valid() && |p.exts| == |p.lru.slots| && GrantsGrow(p, p, enr, 0)
  {
  }

  /** What `lc_try_get` does not find, but `lc_get` makes room for, was not cached. */
  lemma NotRemembered(p: Peer, enr: nat, victim: nat)
    requires p.Ok() && p.wenr in {LC_FREE, enr} && enr != LC_FREE
    requires (p.lru.UnusedAvailable() ==> p.lru.Recyclable(victim))
    requires p.lru.Get(enr, false, false, victim).1.None? && p.lru.Get(enr, true, false, victim).1.Some?
    ensures p.wenr == LC_FREE && p.lru.Find(enr, true).None?
  {
  }

  lemma GrantsGrowTrans(p: Peer, q: Peer, r: Peer, enr: nat, m: int, n: int)
    requires GrantsGrow(p, q, enr, m) && GrantsGrow(q, r, enr, n)
    ensures GrantsGrow(p, r, enr, m + n) && r.Grants(enr) == p.Grants(enr) + m + n
  {
  }

  lemma TakenParts(p: Peer, i: nat, enr: nat)
    requires Taken(p, i, enr)
    ensures i < |p.exts| == |p.lru.slots| && p.lru.slots[i].refcnt == 1 && !p.lru.slots[i].Pending()
  {
  }

  /** A slot for extent `enr` can be had: it is cached, or enough slots are unlocked; a starving cache gives nothing. */
  predicate Obtainable(p: Peer, enr: nat) {
    && !p.lru.starving
    && (p.lru.Find(enr, false).Some? || (p.resyncLocked <= |p.lru.slots| - 3 && !p.lru.locked))
  }

  lemma TryGetIs(p: Peer, enr: nat, victim: nat)
    requires p.Ok() && enr != LC_FREE && (p.lru.UnusedAvailable() ==> p.lru.Recyclable(victim))
    ensures p.lru.Get(enr, false, false, victim).1.Some? <==> !p.lru.starving && p.lru.Find(enr, false).Some?
  {
    var e := p.lru.Find(enr, true);
    if e.Some? {
      FindValid(p.lru, e.value);
    }
  }

  lemma MissGetIs(p: Peer, enr: nat, victim: nat)
    requires p.Ok() && enr != LC_FREE && (p.lru.UnusedAvailable() ==> p.lru.Recyclable(victim))
    requires p.lru.Get(enr, false, false, victim).1.None? && p.resyncLocked <= |p.lru.slots| - 3
    ensures p.lru.Get(enr, true, false, victim).1.Some? <==> Obtainable(p, enr)
  {
    TryGetIs(p, enr, victim);
    CountRoom(p.lru.slots, UsedSlot);
    var i :| 0 <= i < |p.lru.slots| && !UsedSlot(p.lru.slots[i]);
    assert p.lru.slots[i].refcnt == 0;
    var e := p.lru.Find(enr, true);
    if e.Some? {
      FindValid(p.lru, e.value);
    }
  }

  /** The peer once an extent that another try left half-locked is given up. */
  function Dropped(p: Peer, enr: nat): Peer {
    if p.wenr == LC_FREE || p.wenr == enr then p
    else p.(wenr := LC_FREE, resyncLocked := p.resyncLocked - 1, lru := p.lru.(starving := false))
  }

  /**
   * What a try that fails leaves. Without a slot nothing changes, but that another half-locked extent is given up.
   * If application IO is inside, the extent is given up when the try is throttled or application IO waits for it;
   * else it stays half-locked and remembered.
   */
  ghost predicate TryLeft(was: Peer, now: Peer, enr: nat, throttle: bool) {
    var others := was.resyncLocked - if was.wenr == LC_FREE then 0 else 1;
    if throttle && was.wenr != enr then now == was
    else if !Obtainable(Dropped(was, enr), enr) then
      if was.wenr in {LC_FREE, enr} then now == was else GivenUp(now, was.wenr) && now.resyncLocked == others
    else if throttle || Prior(was, enr) then GivenUp(now, enr) && now.resyncLocked == others
    else Remembered(now, enr) && now.resyncLocked == others + 1
  }

  lemma LeftThrottled(p: Peer, enr: nat)
    requires p.wenr != enr
    ensures TryLeft(p, p, enr, true)
  {
  }

  lemma LeftBusy(was: Peer, now: Peer, enr: nat, throttle: bool)
    requires (throttle ==> was.wenr == enr) && !Obtainable(Dropped(was, enr), enr)
    requires if was.wenr in {LC_FREE, enr} then now == was
             else GivenUp(now, was.wenr) && now.resyncLocked == was.resyncLocked - 1
    ensures TryLeft(was, now, enr, throttle)
  {
  }

  lemma LeftHalf(was: Peer, now: Peer, enr: nat, throttle: bool)
    requires (throttle ==> was.wenr == enr) && Obtainable(Dropped(was, enr), enr)
    requires var others := was.resyncLocked - if was.wenr == LC_FREE then 0 else 1;
      if throttle || Prior(was, enr) then GivenUp(now, enr) && now.resyncLocked == others
      else Remembered(now, enr) && now.resyncLocked == others + 1
    ensures TryLeft(was, now, enr, throttle)
  {
  }

  lemma DropObtainable(p: Peer, i: nat, enr: nat)
    requires p.Ok() && i < |p.exts| && p.exts[i].HalfLocked() && p.wenr != enr
    ensures p.lru.used > 0 && Obtainable(p.(wenr := LC_FREE).Release(i), enr) == Obtainable(Dropped(p, enr), enr)
  {
    ReleaseHalfLocked(p, i);
    assert p.ExtOk(i);
    SameFind(p.lru, p.(wenr := LC_FREE).Release(i).lru, enr);
    SameFind(p.lru, Dropped(p, enr).lru, enr);
  }

  /** While resync holds an extent, no activity-log extent inside it is referenced. */
  lemma LockedMeansIdle(p: Peer, al: Cache, enr: nat)
    requires p.Ok() && Excluded(p, al) && p.pro <= 112 && p.Grants(enr) > 0
    ensures forall a :: enr * AL_EXT_PER_BM_SECT <= a < (enr + 1) * AL_EXT_PER_BM_SECT ==> !al.IsUsed(a)
  {
  }

  lemma IdleExtent(al: Cache, enr: nat, pro: nat)
    requires pro <= 112 ==> forall a :: enr * AL_EXT_PER_BM_SECT <= a < (enr + 1) * AL_EXT_PER_BM_SECT ==> !al.IsUsed(a)
    requires al.Valid()
    ensures pro <= 112 ==> forall j :: 0 <= j < |al.slots| && al.slots[j].refcnt > 0 ==>
              al.slots[j].newNumber / AL_EXT_PER_BM_SECT != enr
  {
    if pro <= 112 {
      forall j | 0 <= j < |al.slots| && al.slots[j].refcnt > 0
        ensures al.slots[j].newNumber / AL_EXT_PER_BM_SECT != enr
      {
        var a := al.slots[j].newNumber;
        if a / AL_EXT_PER_BM_SECT == enr {
          assert al.Find(a, true) == Some(j);
          assert al.IsUsed(a);
        }
      }
    }
  }

  /** Both ways out of a failed try keep the invariant: dropping the extent, or remembering it. */
  lemma GiveUp(p: Peer, i: nat, enr: nat, al: Cache)
    requires Taken(p, i, enr) && Excluded(p, al)
    ensures p.lru.used > 0 && !p.lru.slots[i].Pending() && p.lru.slots[i].refcnt == 1
    ensures var q := p.(wenr := LC_FREE).Release(i);
      && q.Ok() && Excluded(q, al) && GrantsGrow(p, q, enr, 0) && SameCounts(p, q)
      && GivenUp(q, enr) && q.resyncLocked == p.resyncLocked - 1
    ensures var q := p.(wenr := enr);
      && q.Ok() && Excluded(q, al) && GrantsGrow(p, q, enr, 0) && SameCounts(p, q) && Remembered(q, enr)
  {
    ReleaseHalfLocked(p.(wenr := enr), i);
    ReleasedIs(p.(wenr := enr), i);
  }

  lemma ReleasedIs(p: Peer, i: nat)
    requires p.Ok() && i < |p.exts| && p.exts[i].HalfLocked() && p.lru.used > 0
    ensures p.lru.slots[i].refcnt == 1 && !p.lru.slots[i].Pending() && p.lru.slots[i].number == p.wenr
    ensures var q := p.(wenr := LC_FREE).Release(i); GivenUp(q, p.wenr) && q.resyncLocked == p.resyncLocked - 1
    ensures Remembered(p, p.wenr)
    ensures forall e: nat :: e != p.wenr ==> Prior(p.(wenr := LC_FREE).Release(i), e) == Prior(p, e)
  {
    hide Count;
    assert p.ExtOk(i);
    FindValid(p.lru, i);
    forall e: nat ensures p.(wenr := LC_FREE).Release(i).lru.Find(e, false) == p.lru.Find(e, false) {
      SameFind(p.lru, p.(wenr := LC_FREE).Release(i).lru, e);
    }
  }

  lemma LockCounts(p: Peer, i: nat)
    requires i < |p.exts|
    ensures SameCounts(p, p.(exts := p.exts[i := p.exts[i].(locked := true)], wenr := LC_FREE))
  {
  }

  lemma NothingDropped(p: Peer, enr: nat)
    ensures p.wenr == LC_FREE ==> Dropped(p, enr) == p
  {
  }

  lemma ReleaseGrants(p: Peer, i: nat)
    requires p.Ok() && i < |p.exts| && p.exts[i].locked
    ensures p.lru.used > 0 && p.Grants(p.lru.slots[i].number) > 0
    ensures GrantsGrow(p, p.Release(i), p.lru.slots[i].number, -1)
  {
    PutValid(p.lru, i);
    FindValid(p.lru, i);
    var q, enr := p.Release(i), p.lru.slots[i].number;
    forall e ensures q.Grants(e) == p.Grants(e) + if e == enr then -1 else 0 {
      SameFind(p.lru, q.lru, e);
    }
  }

  lemma ReleaseOk(p: Peer, i: nat)
    requires p.Ok() && i < |p.exts| && p.exts[i].locked
    ensures p.lru.used > 0 && p.Release(i).Ok()
  {
    PutValid(p.lru, i);
    var q := p.Release(i);
    if p.wenr != LC_FREE {
      var h :| 0 <= h < |p.exts| && p.lru.slots[h].number == p.wenr && p.exts[h].HalfLocked();
      assert q.lru.slots[h].number == q.wenr && q.exts[h].HalfLocked();
    }
    forall j | 0 <= j < |q.exts| ensures q.ExtOk(j) {
      assert p.ExtOk(j);
    }
  }

  /** Releasing a referenced extent keeps the invariant exactly when it is not the half-locked one. */
  lemma ReleaseLocked(p: Peer, i: nat, al: Cache)
    requires p.Ok() && Excluded(p, al) && i < |p.exts| && p.lru.slots[i].refcnt > 0
    ensures p.lru.used > 0 && !p.lru.slots[i].Pending()
    ensures var q, enr := p.Release(i), p.lru.slots[i].number;
      && |q.exts| == |q.lru.slots| && Excluded(q, al)
      && (q.Ok() <==> enr != p.wenr)
      && (enr != p.wenr ==> p.Grants(enr) > 0 && GrantsGrow(p, q, enr, -1))
  {
    hide GrantsGrow, Peer.Grants;
    PutValid(p.lru, i);
    assert p.ExtOk(i);
    if p.lru.slots[i].number == p.wenr {
      HalfLockedIs(p, i);
      NotRememberedAfter(p, i);
    } else {
      ReleaseOk(p, i);
      ReleaseGrants(p, i);
    }
  }

  lemma NotRememberedAfter(p: Peer, i: nat)
    requires p.Ok() && i < |p.exts| && p.exts[i].HalfLocked() && p.lru.used > 0
    ensures !p.Release(i).Ok()
  {
    var q := p.Release(i);
    assert forall j :: 0 <= j < |q.exts| && q.lru.slots[j].number == q.wenr ==> j == i;
  }

  lemma NoneRemembered(p: Peer)
    requires p.Ok() && p.resyncLocked == 0
    ensures p.wenr == LC_FREE
  {
    if p.wenr != LC_FREE {
      var h :| 0 <= h < |p.exts| && p.lru.slots[h].number == p.wenr && p.exts[h].HalfLocked();
      assert p.ExtOk(h);
      CountPositive(p.lru.slots, UsedSlot, h);
    }
  }

  /** The remembered extent is always found, with a reference. */
  lemma RememberedIsCached(p: Peer, enr: nat)
    requires p.Ok() && enr == p.wenr != LC_FREE
    ensures var e := p.lru.Find(enr, false); e.Some? && p.lru.slots[e.value].refcnt > 0
  {
    var h :| 0 <= h < |p.exts| && p.lru.slots[h].number == p.wenr && p.exts[h].HalfLocked();
    FindValid(p.lru, h);
    assert p.ExtOk(h);
  }

  /** Outcome of starting application IO without blocking. */
  datatype Begin = Started | NoBufs | Blocked

  lemma SameRefs(c: Cache, d: Cache)
    requires c.slots == d.slots
    ensures forall e: nat :: Refs(c, e) == Refs(d, e)
  {
    forall e ensures Refs(c, e) == Refs(d, e) {
      SameFind(c, d, e);
    }
  }

  lemma SameHot(c: Cache, d: Cache)
    requires c.slots == d.slots
    ensures forall e: nat :: Hot(c, e) == Hot(d, e)
  {
    forall e: nat ensures Hot(c, e) == Hot(d, e) {
      SameFind(c, d, e);
    }
  }

  /** Putting back a range restores all references exactly when every extent in it is hot. */
  lemma Rollback(was: Cache, now: Cache, first: nat, end: nat)
    requires now.Valid()
    requires forall e: nat :: Refs(now, e) == Refs(was, e) + if first <= e < end then 1 else 0
    ensures forall then': Cache :: then'.Valid() && PutEach(now, then', first, end) ==>
              ((forall e: nat :: Refs(then', e) == Refs(was, e)) <==> forall e: nat :: first <= e < end ==> Hot(now, e))
  {
    forall then': Cache | then'.Valid() && PutEach(now, then', first, end)
      ensures (forall e: nat :: Refs(then', e) == Refs(was, e)) <==> forall e: nat :: first <= e < end ==> Hot(now, e)
    {
      forall e: nat
        ensures Refs(then', e) == Refs(now, e) - if first <= e < end && Hot(now, e) && Refs(now, e) > 0 then 1 else 0
      {
        PutRefs(now, then', first, end, e);
      }
    }
  }

  lemma StarvingKeeps(peers: seq<Peer>, c: Cache, d: Cache)
    requires d == c.(starving := d.starving) && c.Valid()
    ensures d.Valid()
    ensures forall p :: 0 <= p < |peers| && Excluded(peers[p], c) ==> Excluded(peers[p], d)
  {
  }

  /** Slots of a peer's resync cache. */
  const RESYNC_SLOTS := 61

  function NewCache(slots: nat, maxPending: nat): Cache {
    Cache(seq(slots, _ => Slot(LC_FREE, LC_FREE, 0)), 0, 0, maxPending, false, false)
  }

  function NewPeer(pro: nat): Peer {
    Peer(pro, NewCache(RESYNC_SLOTS, 1), seq(RESYNC_SLOTS, _ => Ext(false, false, false, 0, 0)), LC_FREE, 0)
  }

  class Device {
    var al: Cache
    var peers: seq<Peer>
    /** Application IO in flight, as first and last activity-log extent. */
    ghost var outstanding: seq<(nat, nat)>

    ghost predicate Inv()
      reads this
    {
      && al.Valid()
      && forall p :: 0 <= p < |peers| ==> peers[p].Ok() && Excluded(peers[p], al)
    }

    /** Each extent has one reference for every outstanding interval that covers it. */
    ghost predicate RefsConserved()
      reads this
    {
      forall e: nat :: Refs(al, e) == Covering(outstanding, e)
    }

    /** A log of `alSlots` extents, and a resync cache of 61 extents per peer. */
    constructor (alSlots: nat, pros: seq<nat>)
      ensures Inv() && RefsConserved() && outstanding == [] && al == NewCache(alSlots, 64)
      ensures |peers| == |pros| && forall p :: 0 <= p < |peers| ==> peers[p] == NewPeer(pros[p])
    {
      ResetValid(NewCache(alSlots, 64));
      ResetValid(NewCache(RESYNC_SLOTS, 1));
      al := NewCache(alSlots, 64);
      peers := seq(|pros|, p requires 0 <= p < |pros| => NewPeer(pros[p]));
      outstanding := [];
    }

    /** Drops a half-locked extent covering `enr` in favour of application IO; true if resync holds on to it. */
    method StepAside(p: nat, enr: nat) returns (blocked: bool)
      requires Inv() && p < |peers|
      modifies this`peers
      ensures Inv() && |peers| == |old(peers)|
      ensures forall q :: 0 <= q < |peers| && q != p ==> peers[q] == old(peers)[q]
      ensures peers[p].pro == old(peers)[p].pro && forall e :: peers[p].Grants(e) == old(peers)[p].Grants(e)
      ensures SameCounts(old(peers)[p], peers[p])
      ensures !blocked ==> Unblocked(peers[p], enr)
      ensures forall x :: Unblocked(old(peers)[p], x) ==> Unblocked(peers[p], x)
      ensures old(peers)[p].wenr == LC_FREE ==> peers[p] == old(peers)[p]
      ensures blocked ==>
                peers[p] == old(peers)[p] && peers[p].pro <= 112 && peers[p].Grants(enr / AL_EXT_PER_BM_SECT) > 0
    {
      var peer := peers[p];
      if peer.pro > 112 {
        return false;
      }
      var tmp := peer.lru.Find(enr / AL_EXT_PER_BM_SECT, false);
      if tmp.None? || !peer.exts[tmp.value].noWrites {
        return false;
      }
      var i := tmp.value;
      if peer.wenr == peer.lru.slots[i].number {
        HalfLockedIs(peer, i);
        ReleaseHalfLocked(peer, i);
        peer := peer.(wenr := LC_FREE).Release(i);
        if peer.lru.slots[i].refcnt == 0 {
          peers := peers[p := peer];
          return false;
        }
      }
      peers := peers[p := peer];
      return true;
    }

    /** `find_active_resync_extent`: asks every peer in turn, stops at the first one that holds on. */
    method FindActiveResyncExtent(enr: nat) returns (blocked: bool)
      requires Inv()
      modifies this`peers
      ensures Inv() && SameGrants(old(peers), peers)
      ensures forall q :: 0 <= q < |peers| && old(peers)[q].wenr == LC_FREE ==> peers[q] == old(peers)[q]
      ensures !blocked ==> forall q :: 0 <= q < |peers| ==> Unblocked(peers[q], enr)
      ensures forall q, x :: 0 <= q < |peers| && Unblocked(old(peers)[q], x) ==> Unblocked(peers[q], x)
      ensures blocked <==> Granted(old(peers), enr)
    {
      hide Excluded, Unblocked, Peer.Ok, Peer.Grants, SameCounts;
      forall q | 0 <= q < |peers| ensures SameCounts(peers[q], peers[q]) {
        CountsRefl(peers[q], 0, 0);
      }
      for p := 0 to |peers|
        invariant Inv() && |peers| == |old(peers)|
        invariant forall q :: 0 <= q < |peers| ==>
                    && peers[q].pro == old(peers)[q].pro && SameCounts(old(peers)[q], peers[q])
                    && forall e :: peers[q].Grants(e) == old(peers)[q].Grants(e)
        invariant forall q :: p <= q < |peers| ==> peers[q] == old(peers)[q]
        invariant forall q :: 0 <= q < |peers| && old(peers)[q].wenr == LC_FREE ==> peers[q] == old(peers)[q]
        invariant forall q :: 0 <= q < p ==> Unblocked(peers[q], enr)
        invariant forall q, x :: 0 <= q < |peers| && Unblocked(old(peers)[q], x) ==> Unblocked(peers[q], x)
      {
        blocked := StepAside(p, enr);
        if blocked {
          SameGranted(old(peers), peers, enr);
          return;
        }
      }
      blocked := false;
      NoneGranted(peers, enr);
      SameGranted(old(peers), peers, enr);
    }

    /** `set_bme_priority`: asks resync to finish soon with the extents that cover `enr`. */
    method SetBmePriority(enr: nat)
      requires Inv()
      modifies this`peers
      ensures Inv() && |peers| == |old(peers)| && SameGrants(old(peers), peers) && Hurried(peers, enr)
      ensures forall q :: 0 <= q < |peers| ==> Prioritized(old(peers)[q], peers[q], enr)
    {
      hide Peer.Ok, Excluded, Prioritized, Peer.Grants, SameCounts, Prior;
      for p := 0 to |peers|
        invariant Inv() && |peers| == |old(peers)|
        invariant forall q :: 0 <= q < p ==> Prioritized(old(peers)[q], peers[q], enr)
        invariant forall q :: p <= q < |peers| ==> peers[q] == old(peers)[q]
      {
        var peer := peers[p];
        var tmp := peer.lru.Find(enr / AL_EXT_PER_BM_SECT, false);
        SameSizes(peer);
        if peer.pro <= 112 && tmp.Some? && peer.exts[tmp.value].noWrites {
          var i := tmp.value;
          PriorityOk(peer, i, enr, al);
          peers := peers[p := peer.(exts := peer.exts[i := peer.exts[i].(priority := true)])];
        } else {
          PrioritizedSame(peer, enr);
        }
      }
      forall q | 0 <= q < |peers|
        ensures peers[q].pro == old(peers)[q].pro && SameCounts(old(peers)[q], peers[q])
        ensures forall e :: peers[q].Grants(e) == old(peers)[q].Grants(e)
      {
        PrioritizedGrants(old(peers)[q], peers[q], enr);
      }
      forall q | 0 <= q < |peers| && peers[q].pro <= 112 && peers[q].Grants(enr / AL_EXT_PER_BM_SECT) > 0
        ensures Prior(peers[q], enr / AL_EXT_PER_BM_SECT)
      {
        GrantedHurries(old(peers)[q], peers[q], enr);
      }
    }

    /** `__al_get`: takes a reference on activity-log extent `enr` unless resync is active there. */
    method AlGet(enr: nat, nonblock: bool, victim: nat) returns (r: Option<nat>)
      requires Inv() && enr != LC_FREE && (al.UnusedAvailable() ==> al.Recyclable(victim))
      modifies this`al, this`peers
      ensures Inv() && SameGrants(old(peers), peers)
      ensures StaysHot(old(al), al) && al.maxPending == old(al).maxPending
      ensures r.Some? ==> (al, r) == old(al).Get(enr, !nonblock, false, victim)
      ensures r.Some? ==> forall q :: 0 <= q < |peers| && old(peers)[q].wenr == LC_FREE ==> peers[q] == old(peers)[q]
      ensures r.None? ==> al.slots == old(al).slots && al.used == old(al).used && al.pending == old(al).pending
      ensures r.None? <==> Granted(old(peers), enr) || old(al).Get(enr, !nonblock, false, victim).1.None?
      ensures if Granted(old(peers), enr) then al == old(al) && Hurried(peers, enr)
              else al == old(al).Get(enr, !nonblock, false, victim).0
    {
      hide Peer.Ok, Excluded, Unblocked, SameGrants, Granted, Refs, Hot, Cache.Get, Hurried;
      var blocked := FindActiveResyncExtent(enr);
      SameHot(al, al);
      if blocked {
        ghost var peers1 := peers;
        SetBmePriority(enr);
        SameGrantsTrans(old(peers), peers1, peers);
        return None;
      }
      var (al', r') := al.Get(enr, !nonblock, false, victim);
      GetStaysHot(al, enr, !nonblock, false, victim);
      GetValid(al, enr, !nonblock, false, victim);
      forall p | 0 <= p < |peers| ensures Excluded(peers[p], al') {
        GetExcluded(peers[p], al, enr, !nonblock, false, victim);
      }
      al, r := al', r';
    }

    /** The extent another try left half-locked is given up before a different one is tried. */
    method DropOther(p: nat, enr: nat)
      requires Inv() && p < |peers|
      modifies this`peers
      ensures Inv() && |peers| == |old(peers)|
      ensures forall q :: 0 <= q < |peers| && q != p ==> peers[q] == old(peers)[q]
      ensures peers[p].pro == old(peers)[p].pro && peers[p].wenr == if old(peers)[p].wenr == enr then enr else LC_FREE
      ensures peers[p].lru.locked == old(peers)[p].lru.locked
      ensures GrantsGrow(old(peers)[p], peers[p], enr, 0) && SameCounts(old(peers)[p], peers[p])
      ensures Obtainable(peers[p], enr) == Obtainable(Dropped(old(peers)[p], enr), enr)
      ensures Prior(peers[p], enr) == Prior(old(peers)[p], enr)
      ensures if old(peers)[p].wenr in {LC_FREE, enr} then peers[p] == old(peers)[p]
              else GivenUp(peers[p], old(peers)[p].wenr) && peers[p].resyncLocked == old(peers)[p].resyncLocked - 1
    {
      hide Obtainable, SameCounts, GivenUp, Remembered, Prior;
      var peer := peers[p];
      CountsRefl(peer, 0, 0);
      if peer.wenr != LC_FREE && peer.wenr != enr {
        var e := peer.lru.Find(peer.wenr, false);
        RememberedIsCached(peer, peer.wenr);
        if e.Some? {
          HalfLockedIs(peer, e.value);
          ReleaseHalfLocked(peer, e.value);
          DropObtainable(peer, e.value, enr);
          ReleasedIs(peer, e.value);
          peers := peers[p := peer.(wenr := LC_FREE).Release(e.value)];
        }
      }
    }

    /** Whether application IO holds a reference inside resync extent `enr`. */
    method AlBusy(enr: nat) returns (busy: bool)
      requires enr < LC_FREE / AL_EXT_PER_BM_SECT
      ensures busy <==> exists a :: enr * AL_EXT_PER_BM_SECT <= a < (enr + 1) * AL_EXT_PER_BM_SECT && al.IsUsed(a)
    {
      for a := enr * AL_EXT_PER_BM_SECT to (enr + 1) * AL_EXT_PER_BM_SECT
        invariant forall j :: enr * AL_EXT_PER_BM_SECT <= j < a ==> !al.IsUsed(j)
      {
        if al.IsUsed(a) {
          return true;
        }
      }
      return false;
    }

    /** Gets extent `enr` into a slot, with one reference and BME_NO_WRITES; `Locked` if it was locked already. */
    method TakeExtent(p: nat, enr: nat, weight: int) returns (r: Take)
      requires Inv() && p < |peers| && peers[p].wenr in {LC_FREE, enr} && enr != LC_FREE
      modifies this`peers
      ensures |peers| == |old(peers)|
      ensures forall q :: 0 <= q < |peers| && q != p ==> peers[q] == old(peers)[q]
      ensures peers[p].pro == old(peers)[p].pro && |peers[p].exts| == |peers[p].lru.slots| && Excluded(peers[p], al)
      ensures r == Busy ==> peers == old(peers)
      ensures r == Busy <==> !Obtainable(old(peers)[p], enr)
      ensures Recounted(old(peers)[p], peers[p], enr, weight)
      ensures r != Busy ==> !peers[p].lru.starving && peers[p].lru.locked == old(peers)[p].lru.locked
      ensures r == Locked ==> peers[p].wenr == LC_FREE && peers[p].resyncLocked == old(peers)[p].resyncLocked
      ensures r.Half? ==>
                peers[p].resyncLocked == old(peers)[p].resyncLocked + if old(peers)[p].wenr == LC_FREE then 1 else 0
      ensures r.Half? ==> r.slot < |peers[p].exts| && (peers[p].exts[r.slot].priority <==> Prior(old(peers)[p], enr))
      ensures r.Half? ==> old(peers)[p].Grants(enr) == 0
      ensures r == Locked ==> Inv() && GrantsGrow(old(peers)[p], peers[p], enr, 1) && old(peers)[p].Grants(enr) > 0
      ensures r.Half? ==> Taken(peers[p], r.slot, enr) && GrantsGrow(old(peers)[p], peers[p], enr, 0)
    {
      hide Cache.Get, Peer.Ok, Excluded, GrantsGrow, Taken, Recounted, Peer.Grants, Prior;
      var peer := peers[p];
      OkParts(peer, enr);
      CountsRefl(peer, enr, weight);
      var victim := PickVictim(peer.lru);
      TryGetIs(peer, enr, victim);
      HitKeeps(peer, enr, victim);
      var (c, e) := peer.lru.Get(enr, false, false, victim);
      if e.Some? {
        var i := e.value;
        if peer.exts[i].locked {
          LockedHit(peer, enr, victim, i, al);
          peers := peers[p := peer.(lru := c, wenr := LC_FREE)];
          SameIsRecounted(peer, peers[p], enr, weight);
          return Locked;
        }
        if !peer.exts[i].noWrites {
          FreshHit(peer, enr, victim, i, al);
          peers := peers[p := peer.(lru := c, exts := peer.exts[i := peer.exts[i].(noWrites := true)],
                                    resyncLocked := peer.resyncLocked + 1)];
          SameIsRecounted(peer, peers[p], enr, weight);
        } else {
          RetryHit(peer, enr, victim, i);
          peers := peers[p := peer.(lru := c.(slots := c.slots[i := c.slots[i].(refcnt := c.slots[i].refcnt - 1)]))];
          RetryRemembered(peer, i);
        }
        return Half(i);
      }
      if peer.resyncLocked > |peer.lru.slots| - 3 {
        return Busy;
      }
      var (c', e') := peer.lru.Get(enr, true, false, victim);
      MissGetIs(peer, enr, victim);
      if e'.None? {
        return Busy;
      }
      NotRemembered(peer, enr, victim);
      FreshMiss(peer, enr, victim, e'.value, weight, al);
      var ext := peer.exts[e'.value].(rsLeft := weight, rsFailed := 0, noWrites := true);
      peers := peers[p := peer.(lru := c'.Committed(), exts := peer.exts[e'.value := ext],
                                resyncLocked := peer.resyncLocked + 1)];
      return Half(e'.value);
    }

    /**
     * The half-locked extent in slot `i` becomes locked if application IO is not inside; else it is kept or given up.
     */
    method LockOrKeep(p: nat, enr: nat, throttle: bool, i: nat) returns (ok: bool)
      requires p < |peers| && Taken(peers[p], i, enr) && Excluded(peers[p], al) && al.Valid()
      requires forall q :: 0 <= q < |peers| && q != p ==> peers[q].Ok() && Excluded(peers[q], al)
      requires enr < LC_FREE / AL_EXT_PER_BM_SECT
      modifies this`peers
      ensures Inv() && |peers| == |old(peers)|
      ensures forall q :: 0 <= q < |peers| && q != p ==> peers[q] == old(peers)[q]
      ensures GrantsGrow(old(peers)[p], peers[p], enr, if ok then 1 else 0) && SameCounts(old(peers)[p], peers[p])
      ensures ok <==> (old(peers)[p].pro <= 112 ==>
                         forall a :: enr * AL_EXT_PER_BM_SECT <= a < (enr + 1) * AL_EXT_PER_BM_SECT ==> !al.IsUsed(a))
      ensures ok ==> peers[p].wenr == LC_FREE && peers[p].lru == old(peers)[p].lru
      ensures ok ==> peers[p].resyncLocked == old(peers)[p].resyncLocked
      ensures !ok && i < |old(peers)[p].exts| ==>
                if throttle || old(peers)[p].exts[i].priority
                then GivenUp(peers[p], enr) && peers[p].resyncLocked == old(peers)[p].resyncLocked - 1
                else Remembered(peers[p], enr) && peers[p].resyncLocked == old(peers)[p].resyncLocked
    {
      hide Peer.Ok, Excluded, GrantsGrow, Taken, Peer.Grants, SameCounts, GivenUp, Remembered;
      var peer := peers[p];
      TakenParts(peer, i, enr);
      var busy := false;
      if peer.pro <= 112 {
        busy := AlBusy(enr);
      }
      if !busy {
        IdleExtent(al, enr, peer.pro);
        LockTaken(peer, i, enr, al);
        LockCounts(peer, i);
        peers := peers[p := peer.(exts := peer.exts[i := peer.exts[i].(locked := true)], wenr := LC_FREE)];
        return true;
      }
      GiveUp(peer, i, enr, al);
      if throttle || (peer.exts[i].priority && peer.lru.slots[i].refcnt == 1) {
        peers := peers[p := peer.(wenr := LC_FREE).Release(i)];
      } else {
        peers := peers[p := peer.(wenr := enr)];
      }
      return false;
    }

    /**
     * `bsr_try_rs_begin_io`: tries to lock resync extent `enr` of peer `p` without sleeping. `throttle` is the
     * outcome of the rate check and `weight` the extent's current bit count.
     */
    method TryRsBeginIo(p: nat, enr: nat, throttle: bool, weight: int) returns (ok: bool)
      requires Inv() && p < |peers| && enr < LC_FREE / AL_EXT_PER_BM_SECT
      modifies this`peers
      ensures Inv() && |peers| == |old(peers)|
      ensures forall q :: 0 <= q < |peers| && q != p ==> peers[q] == old(peers)[q]
      ensures GrantsGrow(old(peers)[p], peers[p], enr, if ok then 1 else 0)
      ensures Recounted(old(peers)[p], peers[p], enr, weight)
      ensures peers[p].lru.Find(enr, false).Some? <==>
                || old(peers)[p].lru.Find(enr, false).Some?
                || ((!throttle || old(peers)[p].wenr == enr) && Obtainable(Dropped(old(peers)[p], enr), enr))
      ensures ok ==>
                peers[p].wenr == LC_FREE && !peers[p].lru.starving && peers[p].lru.locked == old(peers)[p].lru.locked
      ensures ok && old(peers)[p].wenr == LC_FREE ==>
                peers[p].resyncLocked == old(peers)[p].resyncLocked + if old(peers)[p].Grants(enr) > 0 then 0 else 1
      ensures !ok ==> TryLeft(old(peers)[p], peers[p], enr, throttle)
      ensures ok <==>
                && (!throttle || old(peers)[p].wenr == enr) && Obtainable(Dropped(old(peers)[p], enr), enr)
                && (old(peers)[p].pro <= 112 ==>
                      forall a :: enr * AL_EXT_PER_BM_SECT <= a < (enr + 1) * AL_EXT_PER_BM_SECT ==> !al.IsUsed(a))
    {
      hide Peer.Ok, Excluded, GrantsGrow, Taken, Peer.Grants, Obtainable, Dropped, Recounted, SameCounts, Prior,
        Cache.Find, TryLeft, GivenUp, Remembered;
      OkParts(peers[p], enr);
      CountsRefl(peers[p], enr, weight);
      NothingDropped(peers[p], enr);
      if throttle && peers[p].wenr != enr {
        LeftThrottled(peers[p], enr);
        return false;
      }
      DropOther(p, enr);
      ghost var p1 := peers[p];
      SameCached(old(peers)[p], p1, enr);
      var take := TakeExtent(p, enr, weight);
      ghost var p2 := peers[p];
      CountsRefl(p2, enr, weight);
      RecountedVia(old(peers)[p], p1, p2, p2, enr, weight);
      if take == Busy {
        LeftBusy(old(peers)[p], peers[p], enr, throttle);
        return false;
      }
      if take == Locked {
        GrantsGrowTrans(old(peers)[p], p1, peers[p], enr, 0, 1);
        MoreGrants(p1, peers[p], enr);
        if peers[p].pro <= 112 {
          LockedMeansIdle(peers[p], al, enr);
        }
        return true;
      }
      ok := LockOrKeep(p, enr, throttle, take.slot);
      if !ok {
        LeftHalf(old(peers)[p], peers[p], enr, throttle);
      }
      TakenIsCached(p2, peers[p], take.slot, enr);
      GrantsGrowTrans(old(peers)[p], p1, p2, enr, 0, 0);
      GrantsGrowTrans(old(peers)[p], p2, peers[p], enr, 0, if ok then 1 else 0);
      RecountedVia(old(peers)[p], p1, p2, peers[p], enr, weight);
    }

    /**
     * `bsr_rs_complete_io`: gives up one reference on resync extent `enr`. Called for a successful begin it keeps
     * the invariant; called on the extent that is only half-locked it leaves `resync_wenr` dangling.
     */
    method RsCompleteIo(p: nat, enr: nat)
      requires Inv() && p < |peers| && enr != LC_FREE
      modifies this`peers
      ensures |peers| == |old(peers)| && forall q :: 0 <= q < |peers| && q != p ==> peers[q] == old(peers)[q]
      ensures Inv() <==> enr != old(peers)[p].wenr
      ensures enr != old(peers)[p].wenr ==>
                GrantsGrow(old(peers)[p], peers[p], enr, if old(peers)[p].Grants(enr) > 0 then -1 else 0)
      ensures SameCounts(old(peers)[p], peers[p])
    {
      var peer := peers[p];
      var e := peer.lru.Find(enr, false);
      if e.None? || peer.lru.slots[e.value].refcnt == 0 {
        if enr == peer.wenr {
          RememberedIsCached(peer, enr);
        }
        return;
      }
      ReleaseLocked(peer, e.value, al);
      peers := peers[p := peer.Release(e.value)];
      assert Inv() <==> peers[p].Ok();
    }

    /**
     * `bsr_rs_cancel_all`; without the metadata only the counters are reset, which is right only if nothing was
     * locked.
     */
    method RsCancelAll(p: nat, hasDisk: bool)
      requires Inv() && p < |peers|
      modifies this`peers
      ensures |peers| == |old(peers)| && forall q :: 0 <= q < |peers| && q != p ==> peers[q] == old(peers)[q]
      ensures Inv() <==> hasDisk || old(peers)[p].resyncLocked == 0
      ensures peers[p].wenr == LC_FREE && peers[p].resyncLocked == 0
      ensures if hasDisk then forall e :: peers[p].Grants(e) == 0
              else forall e :: peers[p].Grants(e) == old(peers)[p].Grants(e)
      ensures hasDisk ==> forall i :: 0 <= i < |peers[p].lru.slots| ==> peers[p].lru.slots[i].Free()
      ensures hasDisk ==> !peers[p].lru.starving && !peers[p].lru.locked
    {
      var peer := peers[p];
      if hasDisk {
        ResetValid(peer.lru);
        peer := peer.(lru := peer.lru.Reset(), exts := seq(|peer.exts|, _ => Ext(false, false, false, 0, 0)));
      } else if peer.resyncLocked == 0 {
        NoneRemembered(peer);
      }
      peers := peers[p := peer.(wenr := LC_FREE, resyncLocked := 0)];
      assert Inv() <==> peers[p].Ok();
    }

    /** `put_actlog` for the extents `first..last`; true if some extent became unreferenced. */
    method PutActlog(first: nat, last: nat) returns (wake: bool)
      requires Inv() && first <= last
      modifies this`al
      ensures Inv() && PutEach(old(al), al, first, last + 1)
      ensures wake <==> exists e: nat :: first <= e <= last && Refs(old(al), e) > 0 && Refs(al, e) == 0
      ensures forall e: nat :: Hot(al, e) == Hot(old(al), e)
    {
      hide Hot, Refs, Count, Peer.Ok;
      wake := false;
      for enr := first to last + 1
        invariant Inv() && PutEach(old(al), al, first, enr)
        invariant wake <==> exists e: nat :: first <= e < enr && Hot(old(al), e) && Refs(old(al), e) == 1
      {
        PutRefs(old(al), al, first, enr, enr);
        LastRef(al, enr);
        var extent := al.Find(enr, false);
        if extent.Some? && al.slots[extent.value].refcnt > 0 {
          PutValid(al, extent.value);
          if al.Put(extent.value).slots[extent.value].refcnt == 0 {
            wake := true;
          }
          al := al.Put(extent.value);
        }
      }
      forall e: nat
        ensures Hot(al, e) == Hot(old(al), e)
        ensures first <= e <= last ==>
                  (Hot(old(al), e) && Refs(old(al), e) == 1 <==> Refs(old(al), e) > 0 && Refs(al, e) == 0)
      {
        PutRefs(old(al), al, first, last + 1, e);
      }
    }

    /** `lc_committed` on the activity log, at the end of a transaction. */
    method AlCommitted()
      requires Inv()
      modifies this`al
      ensures Inv() && al == old(al).Committed()
      ensures old(RefsConserved()) ==>
                RefsConserved() && forall i :: 0 <= i < |outstanding| ==> AllHot(al, outstanding[i])
    {
      hide Refs, Hot;
      CommittedValid(al);
      al := al.Committed();
      forall e: nat ensures Refs(al, e) == Refs(old(al), e) && (Refs(al, e) > 0 ==> Hot(al, e)) {
        CommitRefs(old(al), e);
      }
      if old(RefsConserved()) {
        forall i, e: nat | 0 <= i < |outstanding| && outstanding[i].0 <= e <= outstanding[i].1 ensures Hot(al, e) {
          CoveringAt(outstanding, i, e);
        }
      }
    }

    /** The second loop of `bsr_al_begin_io_nonblock`: checks out one reference on every extent. */
    method CheckOut(first: nat, last: nat)
      requires Inv() && first <= last < LC_FREE && !al.locked && !al.starving
      requires al.used + (last - first + 1) <= |al.slots| && al.pending + (last - first + 1) <= al.maxPending
      requires forall q, x :: 0 <= q < |peers| && first <= x <= last ==> Unblocked(peers[q], x)
      modifies this`al
      ensures Inv()
      ensures forall e: nat :: Refs(al, e) == Refs(old(al), e) + if first <= e <= last then 1 else 0
      ensures StaysHot(old(al), al) && !al.starving
    {
      hide Peer.Ok, Excluded, Unblocked, Refs, Hot, Cache.Get, Cache.Valid;
      for enr := first to last + 1
        invariant Inv() && !al.locked && !al.starving && |al.slots| == |old(al).slots|
        invariant al.maxPending == old(al).maxPending
        invariant al.used <= old(al).used + (enr - first) && al.pending <= old(al).pending + (enr - first)
        invariant forall e: nat :: Refs(al, e) == Refs(old(al), e) + if first <= e < enr then 1 else 0
        invariant StaysHot(old(al), al)
      {
        var victim := PickVictim(al);
        GetStaysHot(al, enr, true, true, victim);
        RoomToGet(al, enr, victim);
        GetValid(al, enr, true, true, victim);
        forall p | 0 <= p < |peers| ensures Excluded(peers[p], al.Get(enr, true, true, victim).0) {
          GetExcluded(peers[p], al, enr, true, true, victim);
        }
        var (al', e) := al.Get(enr, true, true, victim);
        forall x: nat ensures Refs(al', x) == Refs(al, x) + if x == enr then 1 else 0 {
          GetRefs(al, enr, true, true, victim, x);
        }
        al := al';
      }
    }

    /**
     * `bsr_al_begin_io_nonblock`, called with the log unlocked: takes a reference on every extent of the
     * interval, or on none.
     */
    method BeginIoNonblock(first: nat, last: nat) returns (r: Begin)
      requires Inv() && first <= last < LC_FREE && !al.locked
      modifies this
      ensures Inv()
      ensures forall e: nat :: Refs(al, e) == Refs(old(al), e) + if r == Started && first <= e <= last then 1 else 0
      ensures outstanding == if r == Started then old(outstanding) + [(first, last)] else old(outstanding)
      ensures old(RefsConserved()) ==> RefsConserved()
      ensures StaysHot(old(al), al)
      ensures old(RefsConserved()) ==>
                forall i :: 0 <= i < |old(outstanding)| && AllHot(old(al), old(outstanding)[i]) ==>
                  AllHot(al, old(outstanding)[i])
      ensures SameGrants(old(peers), peers)
      ensures r == NoBufs <==>
                || |old(al).slots| - old(al).used < last - first + 1
                || old(al).maxPending - old(al).pending < last - first + 1
      ensures r == Blocked <==> r != NoBufs && exists x: nat :: first <= x <= last && Granted(old(peers), x)
      ensures r == Blocked ==> exists x: nat :: x <= last && HurriedAt(old(peers), peers, first, x)
      ensures r == Blocked ==> al == old(al)
      ensures r == NoBufs ==> al == old(al).(starving := old(al).starving || old(al).pending == 0)
      ensures r == NoBufs ==> peers == old(peers)
      ensures r == Started ==> !al.starving
    {
      hide Peer.Ok, Excluded, Unblocked, Refs, Hot, SameGrants, Granted, HurriedAt;
      var n := 1 + last - first;
      CountBound(al.slots, UsedSlot);
      SameGrantsRefl(peers);
      var slots, changes := |al.slots| - al.used, al.maxPending - al.pending;
      if (if slots < changes then slots else changes) < n {
        if al.pending == 0 {
          al := al.(starving := true);
          StarvingKeeps(peers, old(al), al);
        }
        SameRefs(old(al), al);
        SameHot(old(al), al);
        return NoBufs;
      }
      var blocked := AnyActive(first, last);
      if blocked {
        return Blocked;
      }
      al := al.(starving := false);
      SameRefs(old(al), al);
      SameHot(old(al), al);
      StarvingKeeps(peers, old(al), al);
      CheckOut(first, last);
      if old(RefsConserved()) {
        IntervalsStayHot(old(al), al, outstanding);
      }
      CoveringAppend(outstanding, first, last);
      outstanding := outstanding + [(first, last)];
      return Started;
    }

    /** The first loop of `bsr_al_begin_io_nonblock`: is resync active anywhere in the interval? */
    method AnyActive(first: nat, last: nat) returns (blocked: bool)
      requires Inv() && first <= last
      modifies this`peers
      ensures Inv() && SameGrants(old(peers), peers)
      ensures !blocked ==> forall q, x :: 0 <= q < |peers| && first <= x <= last ==> Unblocked(peers[q], x)
      ensures blocked <==> exists x: nat :: first <= x <= last && Granted(old(peers), x)
      ensures blocked ==> exists x: nat :: x <= last && HurriedAt(old(peers), peers, first, x)
    {
      hide Peer.Ok, Excluded, Unblocked, Granted, SameGrants, Hurried;
      SameGrantsRefl(peers);
      for enr := first to last + 1
        invariant Inv() && SameGrants(old(peers), peers)
        invariant forall q, x :: 0 <= q < |peers| && first <= x < enr ==> Unblocked(peers[q], x)
        invariant forall x: nat :: first <= x < enr ==> !Granted(old(peers), x)
      {
        ghost var peers0 := peers;
        SameGranted(old(peers), peers0, enr);
        var active := FindActiveResyncExtent(enr);
        SameSize(peers0, peers);
        SameGrantsTrans(old(peers), peers0, peers);
        if active {
          ghost var peers1 := peers;
          SetBmePriority(enr);
          SameGrantsTrans(old(peers), peers1, peers);
          assert HurriedAt(old(peers), peers, first, enr);
          return true;
        }
      }
      return false;
    }

    /** `_al_get` for one extent of a peer's interval, told by extents. */
    method TakeForPeer(enr: nat, ghost end: nat, ghost c: Cache, ghost first: nat) returns (r: Option<nat>)
      requires Inv() && enr < end <= LC_FREE && first <= enr
      modifies this`al, this`peers
      ensures Inv() && SameGrants(old(peers), peers)
      ensures forall e: nat :: Refs(al, e) == Refs(old(al), e) + if r.Some? && e == enr then 1 else 0
      ensures forall e: nat :: r.None? || Refs(old(al), e) > 0 || e == enr || Hot(old(al), enr) ==>
                Hot(al, e) == Hot(old(al), e)
      ensures forall e: nat :: Hot(al, e) ==> Hot(old(al), e)
      ensures al.maxPending == old(al).maxPending
      ensures al.pending == old(al).pending + if r.Some? && !Hot(old(al), enr) then 1 else 0
      ensures r.Some? ==> r.value < |al.slots| && al.slots[r.value].newNumber == enr
      ensures r.Some? ==> (al.slots[r.value].number == enr <==> Hot(al, enr))
      ensures r.None? <==> Granted(old(peers), enr) || Refuses(old(al), enr)
      ensures r.Some? ==> !al.starving
      ensures TookHot(c, old(al), first, enr) ==> (Refuses(old(al), enr) <==> Stops(c, first, enr))
      ensures r.Some? && TookHot(c, old(al), first, enr) && Hot(c, enr) && Refs(old(al), enr) == Refs(c, enr) ==>
                TookHot(c, al, first, enr + 1)
      ensures r.Some? ==>
                && (Needs(old(al), enr, end) <==> Needs(al, enr + 1, end))
                && (Fits(old(al), enr, end) ==> Fits(al, enr + 1, end))
    {
      hide Peer.Ok, Excluded, Refs, Hot, Cache.Get, Refuses, SameGrants, Granted, Needs, Fits, TookHot, Stops;
      var victim := PickVictim(al);
      ghost var al0 := al;
      RefusesIs(al0, enr, victim);
      if TookHot(c, al0, first, enr) {
        StopsIs(c, al0, first, enr);
        if !Refuses(al0, enr) && Hot(c, enr) && Refs(al0, enr) == Refs(c, enr) {
          TookMore(c, al0, first, enr, victim);
        }
      }
      if !Refuses(al0, enr) {
        NeedsStep(al0, enr, victim, end);
        GetParts(al0, enr, victim, enr);
      }
      GetPending(al0, enr, victim);
      r := AlGet(enr, false, victim);
      if r.None? {
        SameRefs(al0, al);
        SameHot(al0, al);
      } else {
        forall e: nat ensures Refs(al, e) == Refs(al0, e) + if e == enr then 1 else 0 {
          GetRefs(al0, enr, true, false, victim, e);
        }
        forall e: nat
          ensures (Refs(al0, e) > 0 || e == enr || Hot(al0, enr) ==> Hot(al, e) == Hot(al0, e))
          ensures (Hot(al, e) ==> Hot(al0, e))
        {
          GetHot(al0, enr, victim, e);
        }
        HotIf(al, r.value);
      }
    }

    /**
     * Extent `x` cannot be had, and all extents from `first` up to it are in the log: a peer's interval that starts
     * at `first` and reaches `x` fails, and undoes all it did.
     */
    ghost predicate Undone(first: nat, x: nat)
      reads this
    {
      (forall e: nat :: first <= e < x ==> Hot(al, e)) && (Granted(peers, x) || Stops(al, first, x))
    }

    /** The loop of `bsr_al_begin_io_for_peer`: takes the extents one by one, up to `end`. */
    method TakeUpTo(first: nat, last: nat) returns (end: nat, needTransaction: bool, ghost refused: Cache)
      requires Inv() && first <= last < LC_FREE
      modifies this`al, this`peers
      ensures Inv() && SameGrants(old(peers), peers) && first <= end <= last + 1
      ensures forall e: nat :: Refs(al, e) == Refs(old(al), e) + if first <= e < end then 1 else 0
      ensures if forall e: nat :: first <= e < end ==> Hot(old(al), e)
              then forall e: nat :: Hot(al, e) == Hot(old(al), e)
              else exists e: nat :: first <= e < end && !Hot(al, e)
      ensures needTransaction <==> exists e: nat :: first <= e < end && !Hot(old(al), e)
      ensures !needTransaction && end == last + 1 ==> TookHot(old(al), al, first, end)
      ensures StaysHot(old(al), al) && forall e: nat :: Hot(al, e) ==> Hot(old(al), e)
      ensures al.maxPending == old(al).maxPending && al.pending >= old(al).pending + Cold(old(al), first, end)
      ensures end <= last ==> Granted(old(peers), end) || Refuses(refused, end)
      ensures end <= last ==> forall e: nat :: Refs(refused, e) == Refs(old(al), e) + if first <= e < end then 1 else 0
      ensures end == first ==> refused == old(al)
      ensures end <= last && (forall e: nat :: first <= e < end ==> Hot(old(al), e)) ==> old(Undone(first, end))
      ensures forall x: nat :: first <= x < end ==> !old(Undone(first, x))
      ensures (forall x: nat :: first <= x <= last ==> !Granted(old(peers), x)) && Fits(old(al), first, last + 1) ==>
                end == last + 1
      ensures end == last + 1 ==>
                (forall x: nat :: first <= x <= last ==> !Granted(old(peers), x)) && Needs(old(al), first, last + 1)
    {
      hide Peer.Ok, Excluded, Refs, Hot, Cache.Valid, Refuses, SameGrants, Granted, Cache.Find, Needs, Fits, TookHot,
        Stops;
      SameGrantsRefl(peers);
      NoneTaken(al, first);
      refused := al;
      needTransaction := false;
      for enr := first to last + 1
        invariant Inv() && SameGrants(old(peers), peers)
        invariant forall x: nat :: first <= x < enr ==> !Granted(old(peers), x)
        invariant (Needs(old(al), first, last + 1) <==> Needs(al, enr, last + 1))
        invariant Fits(old(al), first, last + 1) ==> Fits(al, enr, last + 1)
        invariant forall e: nat :: Refs(al, e) == Refs(old(al), e) + if first <= e < enr then 1 else 0
        invariant if needTransaction then exists e: nat :: first <= e < enr && !Hot(al, e)
                  else forall e: nat :: Hot(al, e) == Hot(old(al), e)
        invariant needTransaction <==> exists e: nat :: first <= e < enr && !Hot(old(al), e)
        invariant StaysHot(old(al), al) && forall e: nat :: Hot(al, e) ==> Hot(old(al), e)
        invariant al.maxPending == old(al).maxPending && al.pending >= old(al).pending + Cold(old(al), first, enr)
        invariant !needTransaction ==> TookHot(old(al), al, first, enr)
        invariant forall x: nat :: first <= x < enr ==> !old(Undone(first, x))
        invariant if enr == first then al == old(al) else !al.starving
      {
        ghost var peers0 := peers;
        refused := al;
        SameGranted(old(peers), peers0, enr);
        if Fits(al, enr, last + 1) {
          NeedsOne(al, enr, last + 1);
        }
        var r := TakeForPeer(enr, last + 1, old(al), first);
        SameGrantsTrans(old(peers), peers0, peers);
        if r.None? {
          end := enr;
          return;
        }
        if al.slots[r.value].number != enr {
          needTransaction := true;
        }
      }
      NothingNeeded(al, last + 1);
      end := last + 1;
    }

    /**
     * `bsr_al_begin_io_for_peer` when nothing else runs meanwhile: takes the extents one by one; if one cannot be
     * had and the connection is lost, the ones taken are put back. Those that were not in the log yet are
     * skipped by the put, so the references are restored exactly if all of them were hot before the call.
     */
    method BeginIoForPeer(first: nat, last: nat) returns (ok: bool, failedAt: nat, ghost refused: Cache)
      requires Inv() && first <= last < LC_FREE
      modifies this
      ensures Inv() && SameGrants(old(peers), peers)
      ensures (forall x: nat :: first <= x <= last ==> !Granted(old(peers), x)) && Fits(old(al), first, last + 1) ==> ok
      ensures ok ==>
                (forall x: nat :: first <= x <= last ==> !Granted(old(peers), x)) && Needs(old(al), first, last + 1)
      ensures ok ==> old(al).pending + Cold(old(al), first, last + 1) <= old(al).maxPending
      ensures ok ==> forall e: nat :: Refs(al, e) == Refs(old(al), e) + if first <= e <= last then 1 else 0
      ensures ok ==> forall e: nat :: first <= e <= last ==> Hot(al, e)
      ensures ok ==> if forall e: nat :: first <= e <= last ==> Hot(old(al), e)
                     then TookHot(old(al), al, first, last + 1) else al.pending == 0
      ensures !ok ==> first <= failedAt <= last
      ensures ok && old(RefsConserved()) ==> RefsConserved()
      ensures StaysHot(old(al), al)
      ensures old(RefsConserved()) ==>
                forall i :: 0 <= i < |old(outstanding)| && AllHot(old(al), old(outstanding)[i]) ==>
                  AllHot(al, old(outstanding)[i])
      ensures !ok ==> forall e: nat :: Refs(refused, e) == Refs(old(al), e) + if first <= e < failedAt then 1 else 0
      ensures !ok && failedAt == first ==> refused == old(al)
      ensures !ok ==> Granted(old(peers), failedAt) || Refuses(refused, failedAt)
      ensures !ok ==> ((forall e: nat :: Refs(al, e) == Refs(old(al), e)) <==>
                       forall e: nat :: first <= e < failedAt ==> Hot(old(al), e))
      ensures !ok && (forall e: nat :: Refs(al, e) == Refs(old(al), e)) <==>
                exists x: nat :: first <= x <= last && old(Undone(first, x))
      ensures outstanding == if ok then old(outstanding) + [(first, last)] else old(outstanding)
    {
      hide Peer.Ok, Excluded, Refs, Hot, Cache.Valid, Refuses, SameGrants, Granted, Covering, AllHot, Cache.Find,
        Cache.Committed, Needs, Fits, Stops, TookHot;
      var needTransaction;
      failedAt, needTransaction, refused := TakeUpTo(first, last);
      ok := failedAt == last + 1;
      PendingBound(al);
      if !ok && failedAt > first {
        Rollback(old(al), al, first, failedAt);
        var wake := PutActlog(first, failedAt - 1);
      }
      if ok && needTransaction {
        forall e: nat
          ensures Refs(al.Committed(), e) == Refs(al, e) && (Refs(al, e) > 0 ==> Hot(al.Committed(), e))
        {
          CommitRefs(al, e);
        }
        AlCommitted();
      }
      if old(RefsConserved()) {
        IntervalsStayHot(old(al), al, outstanding);
      }
      if ok {
        CoveringAppend(outstanding, first, last);
        outstanding := outstanding + [(first, last)];
      }
    }

    /**
     * `bsr_al_complete_io` for the outstanding interval `i`. The put skips extents that are not committed, so that
     * the references stay conserved exactly if all of the interval is hot: after its transaction, or a begin that
     * needed none.
     */
    method CompleteIo(ghost i: nat, first: nat, last: nat)
      requires Inv() && RefsConserved() && i < |outstanding| && outstanding[i] == (first, last) && first <= last
      modifies this
      ensures Inv() && outstanding == old(outstanding)[..i] + old(outstanding)[i + 1..]
      ensures RefsConserved() <==> AllHot(old(al), (first, last))
      ensures forall e: nat :: Hot(al, e) == Hot(old(al), e)
    {
      hide Hot, Refs, Covering;
      var al0 := al;
      var wake := PutActlog(first, last);
      forall e: nat
        ensures Refs(al, e) == Covering(old(outstanding)[..i] + old(outstanding)[i + 1..], e) <==>
                  !(first <= e <= last) || Hot(al0, e)
      {
        PutRefs(al0, al, first, last + 1, e);
        CoveringRemove(old(outstanding), i, e);
        if first <= e <= last {
          CoveringAt(old(outstanding), i, e);
        }
      }
      outstanding := outstanding[..i] + outstanding[i + 1..];
    }
  }

  // ---- concrete runs from a new device

  lemma FreshFinds(slots: nat, maxPending: nat, e: nat)
    ensures NewCache(slots, maxPending).Find(e, true).None? && NewCache(slots, maxPending).Find(e, false).None?
  {
    NotFound(NewCache(slots, maxPending), e, true);
    NotFound(NewCache(slots, maxPending), e, false);
  }

  lemma {:induction false} AllCold(c: Cache, first: nat, end: nat)
    requires first <= end && forall e: nat :: !Hot(c, e)
    ensures Cold(c, first, end) == end - first
  {
    if first < end {
      AllCold(c, first, end - 1);
    }
  }

  /**
   * A peer's interval of 65 extents on a new log: the 65th exceeds the 64 changes of a transaction, and putting back
   * the ones taken skips them all, since none is in the log yet.
   */
  method RollbackLeaks() returns (d: Device)
    ensures d.Inv() && d.outstanding == [] && !d.RefsConserved()
  {
    hide Refs, Hot;
    d := new Device(67, []);
    ghost var al := d.al;
    forall e: nat ensures !Hot(al, e) && Refs(al, e) == 0 {
      FreshFinds(67, 64, e);
      NoneThere(al, e);
    }
    AllCold(al, 0, 65);
    var ok, failedAt;
    ghost var refused;
    ok, failedAt, refused := d.BeginIoForPeer(0, 64);
    FreshFinds(67, 64, 0);
    assert al.slots[0].refcnt == 0;
    assert !ok && failedAt > 0 && !Hot(al, 0);
    ghost var e: nat :| Refs(d.al, e) != Refs(al, e);
  }

  lemma NoneThere(c: Cache, e: nat)
    requires c.Find(e, true).None? && c.Find(e, false).None?
    ensures !Hot(c, e) && Refs(c, e) == 0
  {
  }

  /** Resync finds application IO in extent 0, keeps it half-locked, and completes it although the begin had failed. */
  method HalfLockedDangles() returns (d: Device)
    ensures !d.Inv()
  {
    hide Cache.Get, Peer.Ok, Excluded;
    d := new Device(67, [112]);
    ghost var al, peer := d.al, d.peers[0];
    var victim := PickVictim(d.al);
    FreshFinds(67, 64, 0);
    FreshFinds(61, 1, 0);
    assert al.slots[0].refcnt == 0;
    RefusesIs(al, 0, victim);
    var r := d.AlGet(0, false, victim);
    TakenIsUsed(al, 0, victim);
    assert d.peers[0] == peer;
    var ok := d.TryRsBeginIo(0, 0, false, 0);
    assert !ok && d.peers[0].wenr == 0;
    d.RsCompleteIo(0, 0);
  }

  /** Resync holds extent 0 when the metadata goes: cancelling resets the count, but not the extent. */
  method CancelWithoutDisk() returns (d: Device)
    ensures !d.Inv()
  {
    hide Cache.Get, Peer.Ok, Excluded, Cache.Find;
    d := new Device(67, [112]);
    FreshFinds(61, 1, 0);
    forall a: nat ensures !d.al.IsUsed(a) {
      FreshFinds(67, 64, a);
    }
    var ok := d.TryRsBeginIo(0, 0, false, 0);
    assert ok && d.peers[0].resyncLocked > 0;
    d.RsCancelAll(0, false);
  }

  lemma TakenIsUsed(c: Cache, enr: nat, victim: nat)
    requires c.Valid() && enr != LC_FREE && (c.UnusedAvailable() ==> c.Recyclable(victim))
    ensures var (d, r) := c.Get(enr, true, false, victim); r.Some? ==> d.IsUsed(enr)
  {
    hide Count;
    GetValid(c, enr, true, false, victim);
    var (d, r) := c.Get(enr, true, false, victim);
    if r.Some? {
      FindValid(d, r.value);
    }
  }
}

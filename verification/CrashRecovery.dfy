/**
 * The crash-safety machine against the objects that implement its steps: the pages a transaction hints and writes, and
 * the labels that a replay of the log area brings back after a crash.
 */
module CrashRecovery {
  import opened LruCache
  import opened BitmapLayout
  import opened BitmapStore
  import opened PageFlags
  import opened Bitmap
  import opened ActivityLog
  import S = CrashSafety
  import R = AlRecovery

  /** Log blocks among the first `n` actions. */
  function BlocksBefore(acts: seq<S.Action>, n: nat): nat
    requires n <= |acts|
  {
    if n == 0 then 0 else BlocksBefore(acts, n - 1) + if acts[n - 1].WriteBlock? then 1 else 0
  }

  /** The block at place `k` of the log forgets the slots without a label in its window, and no others. */
  ghost predicate ShowsWindow(act: S.Action, nr: nat, k: nat) {
    act.WriteBlock? ==> forall s :: s in act.forget <==> 0 <= s < nr && R.InWindow(nr, k, s)
  }

  /** The machine's table is what the history of transactions tells of each slot. */
  ghost predicate Told(table: seq<nat>, hist: seq<seq<Slot>>, nr: nat) {
    && R.Tables(hist, nr) && |table| == nr
    && forall s :: 0 <= s < nr ==> table[s] == R.Shown(hist, nr, |hist|, s)
  }

  lemma NextToldAt(s: S.State, forget: set<nat>, hist: seq<seq<Slot>>, more: seq<seq<Slot>>, nr: nat, i: nat)
    requires i < nr == |s.al.slots| <= |s.table| && SlotOk(s.al.slots[i])
    requires (i in forget <==> R.InWindow(nr, |hist|, i))
    requires s.al.slots[i].number != LC_FREE ==> s.table[i] == s.al.slots[i].number
    requires R.Tables(hist, nr) && R.Tables(more, nr) && more == hist + [s.al.slots]
    requires s.table[i] == R.Shown(hist, nr, |hist|, i)
    ensures S.NextTable(s, forget)[i] == R.Shown(more, nr, |more|, i)
  {
    hide R.InWindow;
    assert hist <= more;
    ShownPrefix(hist, more, nr, |hist|, i);
    LastShown(more, nr, i);
  }

  lemma LastShown(more: seq<seq<Slot>>, nr: nat, i: nat)
    requires R.Tables(more, nr) && more != [] && i < nr
    ensures var slot := more[|more| - 1][i];
      R.Shown(more, nr, |more|, i)
      == if slot.Pending() || R.InWindow(nr, |more| - 1, i) then slot.newNumber else R.Shown(more, nr, |more| - 1, i)
  {
  }

  lemma LabelsTold(s: S.State, i: nat)
    requires S.LogInv(s) && !s.phase.Logged? && i < |s.al.slots|
    ensures |s.al.slots| <= |s.table| && SlotOk(s.al.slots[i])
    ensures s.al.slots[i].number != LC_FREE ==> s.table[i] == s.al.slots[i].number
  {
    hide S.Hints, Count;
    assert S.CoreLabels(s)[i] == s.al.slots[i].number;
  }

  /** A block from the slots of the state, appended to the history, tells the machine's next table. */
  lemma NextTold(s: S.State, forget: set<nat>, hist: seq<seq<Slot>>, nr: nat)
    requires S.LogInv(s) && !s.phase.Logged? && |s.al.slots| == nr && Told(s.table, hist, nr)
    requires ShowsWindow(S.WriteBlock(forget), nr, |hist|)
    ensures Told(S.NextTable(s, forget), hist + [s.al.slots], nr)
  {
    hide R.InWindow, S.LogInv, R.Shown, S.NextTable;
    var more := hist + [s.al.slots];
    forall i | 0 <= i < nr ensures S.NextTable(s, forget)[i] == R.Shown(more, nr, |more|, i) {
      LabelsTold(s, i);
      NextToldAt(s, forget, hist, more, nr, i);
    }
  }

  lemma {:induction false} ShownPrefix(hist: seq<seq<Slot>>, more: seq<seq<Slot>>, nr: nat, hi: nat, s: nat)
    requires R.Tables(hist, nr) && R.Tables(more, nr) && hist <= more && hi <= |hist| && s < nr
    ensures R.Shown(more, nr, hi, s) == R.Shown(hist, nr, hi, s)
  {
    if hi > 0 {
      ShownPrefix(hist, more, nr, hi - 1, s);
    }
  }

  /** The log object stands where the machine does: same cache, and a history that tells the machine's table. */
  ghost predicate Coupled(log: BsrActivityLog, s: S.State)
    reads log
  {
    && log.Logs() && log.al == s.al && Told(s.table, log.hist, |log.al.slots|)
    && if s.phase.Logged? then log.hist != [] && SameLabels(log.hist[|log.hist| - 1], log.al.slots) else log.Valid()
  }

  /** One action of the machine that concerns the log, carried out on the log object. */
  method Follow(log: BsrActivityLog, act: S.Action, ghost s: S.State, ghost t: S.State)
    requires S.Step(s, act, t) && S.LogInv(s) && Coupled(log, s) && !act.Replace?
    requires ShowsWindow(act, |log.al.slots|, |log.hist|)
    modifies log
    ensures Coupled(log, t) && |log.al.slots| == old(|log.al.slots|)
    ensures log.hist == old(log.hist) + if act.WriteBlock? then [old(log.al.slots)] else []
  {
    hide BsrActivityLog.Valid, BsrActivityLog.Logs, S.LogInv, Told, PageOf, S.Hints, ShowsWindow, Cache.Valid,
      SameLabels;
    LockedPhases(s);
    match act
    case Get(enr, mayChange, unc, victim) =>
      if s.phase.Logged? {
        LockedGet(s.al, enr, mayChange, unc, victim, log.hist[|log.hist| - 1]);
      }
      var e := log.Get(enr, mayChange, unc, victim);
    case Put(i) =>
      if s.phase.Logged? {
        PutLabels(s.al, i, log.hist[|log.hist| - 1]);
      }
      log.Put(i);
    case Lock => log.SetLocked(true);
    case BeginShrink => log.SetLocked(true);
    case EndShrink => log.SetLocked(false);
    case FreeSlot(i) => log.Free(i);
    case WriteBlock(forget) =>
      NextTold(s, forget, log.hist, |log.al.slots|);
      LabelsRefl(log.al.slots);
      log.WriteTransaction();
    case Commit => log.CommitSlots();
    case _ =>
  }

  lemma LockedPhases(s: S.State)
    requires S.LogInv(s)
    ensures s.al.locked <==> !s.phase.Idle?
  {
  }

  lemma LabelsRefl(slots: seq<Slot>)
    ensures SameLabels(slots, slots)
  {
  }

  lemma LockedGet(al: Cache, enr: nat, mayChange: bool, unc: bool, victim: nat, last: seq<Slot>)
    requires al.locked && enr != LC_FREE && (al.UnusedAvailable() ==> al.Recyclable(victim))
    requires SameLabels(last, al.slots)
    ensures SameLabels(last, al.Get(enr, mayChange, unc, victim).0.slots)
  {
  }

  lemma PutLabels(al: Cache, i: nat, last: seq<Slot>)
    requires i < |al.slots| && al.slots[i].refcnt > 0 && !al.slots[i].Pending() && al.used > 0
    requires SameLabels(last, al.slots)
    ensures SameLabels(last, al.Put(i).slots)
  {
  }

  /**
   * A run of the machine carried out on the log object, a crash in its last state, and the replay of the log area: if
   * every step was kept, every mark in memory is on disk or in an extent that the replay brings back.
   */
  method CrashAndCover(log: BsrActivityLog, acts: seq<S.Action>, torn: bool, hot: array<nat>, ghost trace: seq<S.State>)
    returns (r: int)
    requires S.Run(trace, acts) && S.AllKept(trace, acts, |acts|) && Coupled(log, trace[0])
    requires forall i :: 0 <= i < |acts| ==>
               !acts[i].Replace? && ShowsWindow(acts[i], |log.al.slots|, |log.hist| + BlocksBefore(acts, i))
    requires hot.Length == R.AL_EXTENTS_MAX && forall s :: 0 <= s < hot.Length ==> hot[s] == LC_FREE
    modifies log, hot
    ensures Coupled(log, trace[|acts|]) && |log.hist| == old(|log.hist|) + BlocksBefore(acts, |acts|)
    ensures log.Recoverable(torn) ==>
              forall a :: a in trace[|acts|].core ==> a in trace[|acts|].disk || S.Extent(a) in hot[..]
  {
    hide BsrActivityLog.Logs, BsrActivityLog.Recoverable, BsrActivityLog.Valid, S.Step, S.Init, S.Kept, S.Inv, S.LogInv,
      S.State.Safe, Told, ShowsWindow, SameLabels, R.Shown;
    ghost var nr, first := |log.al.slots|, |log.hist|;
    for i := 0 to |acts|
      invariant Coupled(log, trace[i]) && |log.al.slots| == nr && |log.hist| == first + BlocksBefore(acts, i)
      invariant forall s :: 0 <= s < hot.Length ==> hot[s] == LC_FREE
    {
      S.RunKeeps(trace, acts, i);
      InvParts(trace[i]);
      Follow(log, acts[i], trace[i], trace[i + 1]);
    }
    S.RunKeeps(trace, acts, |acts|);
    log.LastShape();
    r := log.CrashAndReplay(torn, hot);
    if log.Recoverable(torn) {
      HotIsTable(trace[|acts|].table, log.hist, nr, hot[..]);
      CoveredBy(trace[|acts|], hot[..]);
    }
  }

  lemma InvParts(s: S.State)
    requires S.Inv(s)
    ensures S.LogInv(s)
  {
  }

  /** The labels the replay brings back are the table of the machine. */
  lemma HotIsTable(table: seq<nat>, hist: seq<seq<Slot>>, nr: nat, hot: seq<nat>)
    requires Told(table, hist, nr) && nr <= |hot|
    requires forall s :: 0 <= s < |hot| ==> hot[s] == if s < nr then R.Shown(hist, nr, |hist|, s) else LC_FREE
    ensures |table| <= |hot| && forall s :: 0 <= s < |table| ==> hot[s] == table[s]
  {
  }

  lemma CoveredBy(s: S.State, hot: seq<nat>)
    requires s.Safe() && |s.table| <= |hot| && forall i :: 0 <= i < |s.table| ==> hot[i] == s.table[i]
    ensures forall a :: a in s.core ==> a in s.disk || S.Extent(a) in hot
  {
    forall a | a in s.core && a !in s.disk ensures S.Extent(a) in hot {
      var i :| 0 <= i < |s.table| && s.table[i] == S.Extent(a);
      assert hot[i] == S.Extent(a);
    }
  }

  // ---- the page writes of one transaction

  /** The labels that pending changes evict, as the loop over `to_be_changed` finds them. */
  method EvictedLabels(al: Cache) returns (evicted: seq<nat>)
    requires al.Valid()
    ensures |evicted| <= al.pending <= al.maxPending
    ensures forall e: nat :: e in evicted <==>
              exists i :: 0 <= i < |al.slots| && S.Evicts(al.slots[i]) && al.slots[i].number == e
  {
    hide Count;
    evicted := [];
    CountNoSlots(PendingSlot);
    for i := 0 to |al.slots|
      invariant |evicted| <= Count(al.slots[..i], PendingSlot)
      invariant forall e: nat :: e in evicted <==>
                  exists j :: 0 <= j < i && S.Evicts(al.slots[j]) && al.slots[j].number == e
    {
      CountNext(al.slots, PendingSlot, i);
      if S.Evicts(al.slots[i]) {
        evicted := evicted + [al.slots[i].number];
      }
    }
    assert al.slots[..|al.slots|] == al.slots;
  }

  /**
   * `__al_write_transaction` up to the log block: the pages hinted are those the machine's `Hint` step asks for, and
   * when they have been written every bit of an evicted extent is on disk as it is in memory.
   */
  method FlushEvicted(bm: BsrBitmap, al: Cache) returns (ghost hinted: set<nat>)
    requires bm.Shape() && bm.bits > 0 && bm.hinted == {} && |bm.pages| <= |bm.disk| && bm.Written()
    requires al.Valid() && al.maxPending <= AL_UPDATES_PER_TRANSACTION
    modifies bm`hints, bm`hinted, bm`needWriteout, bm`lazyWriteout, bm`disk
    ensures bm.Shape() && bm.Written() && bm.hinted == {}
    ensures forall s: S.State :: s.al == al && s.peers == bm.peers && s.bits == bm.bits ==> S.Hints(s, hinted)
    ensures forall i, q, b | 0 <= i < |al.slots| && S.Evicts(al.slots[i]) && 0 <= q < bm.peers && 0 <= b < bm.bits
              && b / AL_EXTENT_BITS == al.slots[i].number ::
              BitAt(bm.disk, bm.peers, q, b) == BitAt(bm.pages, bm.peers, q, b)
  {
    hide Holds, PageOf, MarksPage, BitAt, Wrote, PageFlags.OnDisk, Cache.Valid, S.Hints;
    var evicted := EvictedLabels(al);
    bm.MarkExtents(evicted);
    hinted := bm.hinted;
    forall s: S.State | s.al == al && s.peers == bm.peers && s.bits == bm.bits ensures S.Hints(s, hinted) {
      EvictedHints(s, evicted, hinted);
    }
    ghost var disk0, need, lazy := bm.disk, bm.needWriteout, bm.lazyWriteout;
    bm.WriteHinted();
    forall i, q, b | 0 <= i < |al.slots| && S.Evicts(al.slots[i]) && 0 <= q < bm.peers && 0 <= b < bm.bits
                     && b / AL_EXTENT_BITS == al.slots[i].number
      ensures BitAt(bm.disk, bm.peers, q, b) == BitAt(bm.pages, bm.peers, q, b)
    {
      assert al.slots[i].number in evicted;
      HintedOnDisk(bm.pages, disk0, bm.disk, need, lazy, hinted, bm.peers, q, b);
    }
  }

  lemma EvictedHints(s: S.State, evicted: seq<nat>, hinted: set<nat>)
    requires forall e: nat :: e in evicted <==>
               exists i :: 0 <= i < |s.al.slots| && S.Evicts(s.al.slots[i]) && s.al.slots[i].number == e
    requires forall p :: p in hinted <==> exists j :: 0 <= j < |evicted| && MarksPage(s.peers, s.bits, evicted[j], p)
    ensures S.Hints(s, hinted)
  {
    hide MarksPage;
    forall i, p | 0 <= i < |s.al.slots| && S.Evicts(s.al.slots[i])
                  && MarksPage(s.peers, s.bits, s.al.slots[i].number, p)
      ensures p in hinted
    {
      assert s.al.slots[i].number in evicted;
    }
    forall p | p in hinted
      ensures exists i ::
                0 <= i < |s.al.slots| && S.Evicts(s.al.slots[i]) && MarksPage(s.peers, s.bits, s.al.slots[i].number, p)
    {
      var j :| 0 <= j < |evicted| && MarksPage(s.peers, s.bits, evicted[j], p);
      assert evicted[j] in evicted;
    }
  }

  /** A hinted page is on disk once the changed ones among them have been written. */
  lemma HintedOnDisk(pages: seq<Page>, disk0: seq<Page>, disk1: seq<Page>, need: set<nat>, lazy: set<nat>,
                     hinted: set<nat>, peers: nat, q: nat, b: nat)
    requires PageFlags.OnDisk(pages, need, lazy, disk0) && Wrote(disk0, disk1, pages, hinted * (need + lazy))
    requires |pages| <= |disk0|
    requires PageOf(peers, q, b) in hinted && Within(hinted, |pages|)
    ensures BitAt(disk1, peers, q, b) == BitAt(pages, peers, q, b)
  {
    var p := PageOf(peers, q, b);
    assert disk1[p] == pages[p];
  }
}

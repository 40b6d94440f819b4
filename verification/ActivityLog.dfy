/** Writing activity-log transactions, and recovering the slot table from disk after a crash. */
module ActivityLog {
  import opened Arithmetic
  import opened Options
  import opened LruCache
  import opened AlRecovery
  import opened AlRing
  import AlStripes

  function EmptyLog(nr: nat): (c: Cache)
    ensures |c.slots| == nr
  {
    Cache(seq(nr, _ => Slot(LC_FREE, LC_FREE, 0)), 0, 0, AL_UPDATES, false, false)
  }

  class BsrActivityLog {
    const stripes: nat
    const stripeSize: nat
    var al: Cache
    var trNumber: nat
    var trCycle: nat
    var disk: seq<Block>
    /** Every transaction written so far, and the slots it was written from. */
    ghost var log: seq<Transaction>
    ghost var hist: seq<seq<Slot>>

    ghost predicate Shape()
      reads this
    {
      && stripes > 0 && 8 <= stripes * stripeSize <= 4194304 && |disk| == stripes * stripeSize
      && al.Valid() && al.maxPending == AL_UPDATES && |al.slots| <= ExtentsMax(|disk|)
    }

    /** The log describes its history, and the ring holds what was not overwritten. */
    ghost predicate Logs()
      reads this
    {
      && Shape()
      && Run(hist, |al.slots|) && Logged(log, hist, |al.slots|)
      && trNumber == |log| % U32 && trCycle == Cycle(|al.slots|, |log|)
      && Recorded(disk, log, stripes, stripeSize)
    }

    /** Everything written is committed: a crash now recovers the committed labels. */
    ghost predicate Valid()
      reads this
    {
      Logs() && if hist == [] then Blank(al.slots) else Follows(al.slots, hist[|hist| - 1])
    }

    /** No slot has ever been freed. */
    ghost predicate NoneFreed()
      reads this
      requires Logs()
    {
      && Unfreed(hist, |al.slots|, 0, |hist|)
      && (hist != [] ==> forall s :: 0 <= s < |al.slots| ==> al.slots[s].number == hist[|hist| - 1][s].newNumber)
    }

    /** The last transactions are all on disk: the ring is not full yet, or the number did not wrap and move it. */
    ghost predicate Recoverable(torn: bool)
      reads this
    {
      |log| < |disk|
      || (0 < |disk| && Steady(Oldest(|log|, |disk|, torn), Oldest(|log|, |disk|, torn) + |disk|, |disk|))
    }

    constructor (stripes: nat, stripeSize: nat, nr: nat)
      requires stripes > 0 && 8 <= stripes * stripeSize <= 4194304 && nr <= ExtentsMax(stripes * stripeSize)
      ensures Valid() && log == [] && this.stripes == stripes && this.stripeSize == stripeSize
      ensures al == EmptyLog(nr) && hist == []
    {
      this.stripes, this.stripeSize := stripes, stripeSize;
      var empty := EmptyLog(nr);
      al, trNumber, trCycle, disk, log, hist := empty, 0, 0, seq(stripes * stripeSize, _ => Initialized), [], [];
      ResetValid(empty);
      new;
      NothingRecorded(disk, stripes, stripeSize);
    }

    /** `__al_write_transaction`: one transaction from the slots as they are, into the next place of the ring. */
    method WriteTransaction()
      requires Valid()
      modifies `trNumber, `trCycle, `disk, `log, `hist
      ensures Logs() && |log| == |old(log)| + 1 && log[..|old(log)|] == old(log)
      ensures hist == old(hist) + [al.slots]
    {
      hide Recorded, AlStripes.Block, Cycle, Run, Logged, Follows;
      var n, updates := CollectUpdates(al);
      var context := CollectContext(al.slots, trCycle);
      var t := Transaction(trNumber, n, updates, |al.slots|, trCycle, context);
      LogExtends(log, hist, |al.slots|, t, al.slots);
      var b := AlStripes.Block(stripes, stripeSize, trNumber % |disk|);
      RecordNext(disk, log, stripes, stripeSize, t);
      trCycle := NextCycle(|al.slots|, trCycle);
      log, hist := log + [t], hist + [al.slots];
      disk := disk[b := Written(t)];
      CycleNext(|al.slots|, |log|);
      NumberNext(trNumber, |log|);
      trNumber := (trNumber + 1) % U32;
    }

    /** `lc_committed` and `lc_unlock` after a transaction that announced the slots. */
    method CommitSlots()
      requires Logs() && hist != [] && SameLabels(hist[|hist| - 1], al.slots)
      modifies `al
      ensures Valid() && Logs() && al == old(al).Committed().(locked := false)
    {
      hide Recorded, Run, Logged, Cycle;
      CommittedValid(al);
      al := al.Committed().(locked := false);
    }

    /** `bsr_al_begin_io_commit` and `al_write_transaction`: announce the pending labels, then make them current. */
    method Commit()
      requires Valid()
      modifies `al, `trNumber, `trCycle, `disk, `log, `hist
      ensures Valid() && al == (if old(al.pending) > 0 then old(al).Committed() else old(al))
      ensures if old(al.pending) > 0 then |log| == |old(log)| + 1 && hist == old(hist) + [old(al.slots)]
              else log == old(log) && hist == old(hist)
    {
      hide Recorded, Run, Logged, Cycle;
      if al.pending > 0 {
        WriteTransaction();
        CommittedValid(al);
        al := al.Committed();
      }
    }

    /** `bsr_al_initialize`: one transaction commits what is pending, the rest fill the ring. */
    method Initialize()
      requires Valid()
      modifies `al, `trNumber, `trCycle, `disk, `log, `hist
      ensures Valid() && al == old(al).Committed() && |log| == |old(log)| + |disk| && |disk| == |old(disk)|
    {
      hide Recorded, Run, Logged, Cycle;
      WriteTransaction();
      CommittedValid(al);
      al := al.Committed();
      var i := 1;
      while i < stripes * stripeSize
        invariant Valid() && al == old(al).Committed() && |disk| == |old(disk)|
        invariant 1 <= i <= |disk| && |log| == |old(log)| + i
      {
        WriteTransaction();
        i := i + 1;
      }
    }

    /** `__lc_get` on the activity log, with whatever admissible slot a miss recycles; the committed labels stay. */
    method Get(enr: nat, mayChange: bool, mayUseUncommitted: bool, victim: nat) returns (e: Option<nat>)
      requires Logs() && enr != LC_FREE && (al.UnusedAvailable() ==> al.Recyclable(victim))
      modifies `al
      ensures Logs() && (old(Valid()) ==> Valid()) && (al, e) == old(al).Get(enr, mayChange, mayUseUncommitted, victim)
      ensures forall s :: 0 <= s < |al.slots| == |old(al.slots)| ==> al.slots[s].number == old(al.slots[s].number)
    {
      hide Recorded, Run, Logged, Cycle;
      GetValid(al, enr, mayChange, mayUseUncommitted, victim);
      var (al', r) := al.Get(enr, mayChange, mayUseUncommitted, victim);
      al, e := al', r;
    }

    /** `lc_del` in `bsr_al_shrink`: the slot is free in memory, and the log on disk is left as it is. */
    method Free(i: nat)
      requires Valid() && i < |al.slots| && al.slots[i].refcnt == 0
      modifies `al
      ensures Valid() && Logs() && al == old(al).Deleted(i)
    {
      hide Recorded, Run, Logged, Cycle;
      DeletedValid(al, i);
      al := al.Deleted(i);
    }

    /** `lc_try_lock`, `lc_try_lock_for_transaction` and `lc_unlock` */
    method SetLocked(locked: bool)
      requires Logs()
      modifies `al
      ensures Logs() && al == old(al).(locked := locked) && (old(Valid()) ==> Valid())
    {
      hide Recorded, Run, Logged, Cycle;
      al := al.(locked := locked);
    }

    /** `lc_put` on the activity log. */
    method Put(i: nat)
      requires Logs() && i < |al.slots| && al.slots[i].refcnt > 0 && !al.slots[i].Pending()
      modifies `al
      ensures Logs() && (old(Valid()) ==> Valid()) && old(al).used > 0 && al == old(al).Put(i)
      ensures forall s :: 0 <= s < |al.slots| ==> al.slots[s].number == old(al.slots[s].number)
    {
      hide Recorded, Run, Logged, Cycle;
      PutValid(al, i);
      al := al.Put(i);
    }

    /**
     * A crash at any time, possibly in the middle of writing the next transaction, and the replay by the offline tool.
     * It brings back exactly what the log tells of each slot: every label that is announced or still in use, and for a
     * slot that was freed since possibly an old one. If none was ever freed, exactly the labels come back.
     */
    method CrashAndReplay(torn: bool, hot: array<nat>) returns (r: int)
      requires Logs()
      requires hot.Length == AL_EXTENTS_MAX && forall s :: 0 <= s < hot.Length ==> hot[s] == LC_FREE
      modifies hot
      ensures log == [] ==> r == 0
      ensures log != [] && Recoverable(torn) ==> r > 0
      ensures Recoverable(torn) ==> forall s :: 0 <= s < hot.Length ==>
                hot[s] == if s < |al.slots| then Shown(hist, |al.slots|, |hist|, s) else LC_FREE
      ensures Recoverable(torn) && Valid() ==> forall s :: 0 <= s < |al.slots| && al.slots[s].number != LC_FREE ==>
                hot[s] == al.slots[s].number
      ensures Recoverable(torn) && Valid() && NoneFreed() ==>
                forall s :: 0 <= s < |al.slots| ==> hot[s] == al.slots[s].number
    {
      hide *;
      ghost var lo := Oldest(|log|, |disk|, torn);
      LogParts();
      var blocks := CrashedDisk(torn);
      var ring;
      r, ring := Replay(blocks, stripes, stripeSize, hot, log, lo, |log|);
      if log == [] {
        NoneWritten(disk, blocks, ring, log, stripes, stripeSize, torn);
        assert forall s :: 0 <= s < hot.Length ==> hot[s] == hot[..][s] == old(hot[..])[s];
        NothingShown(hist, |al.slots|);
      } else if Recoverable(torn) {
        OldestSteady(torn);
        RingWindow(disk, blocks, ring, log, stripes, stripeSize, torn, lo);
        AllRecovered(log, hist, |al.slots|, hot.Length, lo);
        assert forall s :: 0 <= s < hot.Length ==> hot[s] == hot[..][s];
      }
      if Valid() {
        Labels();
      }
    }

    lemma OldestSteady(torn: bool)
      requires Logs() && log != [] && Recoverable(torn)
      ensures var lo := Oldest(|log|, |disk|, torn);
        && lo < |log| <= lo + |disk| && (torn ==> |log| < lo + |disk|) && Steady(lo, lo + |disk|, |disk|)
        && (|log| < lo + |disk| ==> lo == 0 || (torn && |log| + 1 == lo + |disk|))
        && (lo == 0 || lo + Windows(|al.slots|) <= |log|)
    {
      hide Recorded, Run, Logged, Cycle, AlStripes.Block;
      ExtentsMaxFits(|al.slots|, |disk|);
    }

    /** The log area after the crash: the block being written does not check out. */
    method CrashedDisk(torn: bool) returns (blocks: seq<Block>)
      requires Logs()
      ensures |disk| > 0 && |blocks| == |disk| && Crashed(disk, blocks, |log|, stripes, stripeSize, torn)
      ensures forall b :: 0 <= b < |blocks| && blocks[b].Written? ==> blocks[b].t.Shape()
    {
      hide Recorded, Run, Logged, Cycle, AlStripes.Block;
      NextInside(|log|, stripes, stripeSize);
      RecordedShapes(disk, log, stripes, stripeSize);
      var b := AlStripes.Block(stripes, stripeSize, trNumber % |disk|);
      blocks := if torn then disk[b := Invalid] else disk;
    }

    lemma LogParts()
      requires Logs()
      ensures stripes > 0 && 8 <= |disk| == stripes * stripeSize < U32 && stripes * stripeSize < U32 / 2
      ensures Run(hist, |al.slots|) && Tables(hist, |al.slots|) && Logged(log, hist, |al.slots|)
      ensures |hist| == |log| && Recorded(disk, log, stripes, stripeSize)
      ensures Windows(|al.slots|) <= |disk| - 1 && |al.slots| <= AL_EXTENTS_MAX
      ensures forall k :: 0 <= k < |log| ==> log[k].Shape() && log[k].number == k % U32
    {
      hide Recorded, Logged, Cycle, AlStripes.Block;
      ExtentsMaxFits(|al.slots|, |disk|);
      LoggedNumbers(log, hist, |al.slots|);
    }

    lemma LastShape()
      requires Logs()
      ensures |al.slots| <= AL_EXTENTS_MAX && (hist != [] ==> |hist[|hist| - 1]| == |al.slots|)
    {
      hide Recorded, Logged, Cycle, AlStripes.Block;
      ExtentsMaxFits(|al.slots|, |disk|);
    }

    /** What the log tells of the slots that have a label, and of all slots if none was freed. */
    lemma Labels()
      requires Valid()
      ensures Tables(hist, |al.slots|)
      ensures forall s :: 0 <= s < |al.slots| && al.slots[s].number != LC_FREE ==>
                Shown(hist, |al.slots|, |hist|, s) == al.slots[s].number
      ensures NoneFreed() ==>
                forall s :: 0 <= s < |al.slots| ==> Shown(hist, |al.slots|, |hist|, s) == al.slots[s].number
    {
      hide Recorded, Logged, Cycle, AlStripes.Block, InWindow;
      forall s | 0 <= s < |al.slots|
        ensures al.slots[s].number != LC_FREE || NoneFreed() ==>
                  Shown(hist, |al.slots|, |hist|, s) == al.slots[s].number
      {
        if hist != [] {
          ShownLabels(hist, |al.slots|, |hist|, s);
          if NoneFreed() {
            UnfreedShown(hist, |al.slots|, |hist|, s);
          }
        }
      }
    }
  }

  /** The loop over `to_be_changed`; its order does not matter, so slot order stands for all of them. */
  method CollectUpdates(al: Cache) returns (n: nat, updates: seq<Update>)
    requires al.Valid() && al.maxPending == AL_UPDATES
    ensures n == al.pending && UpdatesOf(n, updates, al.slots)
  {
    hide Count;
    updates := [];
    CountNoSlots(PendingSlot);
    for i := 0 to |al.slots|
      invariant |updates| == Count(al.slots[..i], PendingSlot) <= AL_UPDATES
      invariant forall k :: 0 <= k < |updates| ==>
                  && updates[k].slot < i && al.slots[updates[k].slot].Pending()
                  && updates[k].extent == al.slots[updates[k].slot].newNumber
      invariant forall s :: 0 <= s < i && al.slots[s].Pending() ==> Listed(updates, |updates|, s)
    {
      CountNext(al.slots, PendingSlot, i);
      CountPrefix(al.slots, PendingSlot, i + 1);
      if al.slots[i].Pending() {
        ghost var was := updates;
        updates := updates + [Update(i, al.slots[i].newNumber)];
        forall s | 0 <= s <= i && al.slots[s].Pending() ensures Listed(updates, |updates|, s) {
          ListedGrows(was, updates, s, i);
        }
      }
    }
    assert al.slots[..|al.slots|] == al.slots;
    n := |updates|;
    ghost var was := updates;
    while |updates| < AL_UPDATES
      invariant n <= |updates| <= AL_UPDATES && updates[..n] == was
      invariant forall k :: n <= k < |updates| ==> updates[k] == Update(U16_MAX, LC_FREE)
    {
      updates := updates + [Update(U16_MAX, LC_FREE)];
    }
    forall s | 0 <= s < |al.slots| && al.slots[s].Pending() ensures Listed(updates, n, s) {
      ListedPadded(was, updates, s);
    }
    assert forall k :: 0 <= k < n ==> updates[k] == was[k];
  }

  lemma ListedGrows(was: seq<Update>, now: seq<Update>, s: nat, i: nat)
    requires |now| == |was| + 1 && now[..|was|] == was && now[|was|].slot == i
    requires s != i ==> Listed(was, |was|, s)
    ensures Listed(now, |now|, s)
  {
    if s != i {
      var k :| 0 <= k < |was| && was[k].slot == s;
      assert now[k] == was[k];
    } else {
      assert now[|was|].slot == s;
    }
  }

  lemma ListedPadded(was: seq<Update>, now: seq<Update>, s: nat)
    requires |was| <= |now| && now[..|was|] == was && Listed(was, |was|, s)
    ensures Listed(now, |was|, s)
  {
    var k :| 0 <= k < |was| && was[k].slot == s;
    assert now[k] == was[k];
  }

  /** The two loops that fill the window. */
  method CollectContext(slots: seq<Slot>, cycle: nat) returns (context: seq<nat>)
    ensures ContextOf(context, slots, cycle)
  {
    var mx := if AL_CONTEXT <= |slots| - cycle then AL_CONTEXT else |slots| - cycle;
    context := [];
    while |context| < mx
      invariant |context| <= AL_CONTEXT && (mx >= 0 ==> |context| <= mx)
      invariant forall i :: 0 <= i < |context| ==> cycle + i < |slots| && context[i] == slots[cycle + i].number
    {
      context := context + [slots[cycle + |context|].number];
    }
    ghost var n := |context|;
    while |context| < AL_CONTEXT
      invariant n <= |context| <= AL_CONTEXT
      invariant forall i :: 0 <= i < |context| ==>
                  context[i] == if cycle + i < |slots| then slots[cycle + i].number else LC_FREE
    {
      context := context + [LC_FREE];
    }
  }

  /** The slots' committed labels are the ones the last transaction announced, except where a slot was freed. */
  ghost predicate Follows(slots: seq<Slot>, last: seq<Slot>)
  {
    && |slots| == |last|
    && forall s :: 0 <= s < |slots| ==> slots[s].number == last[s].newNumber || slots[s].number == LC_FREE
  }

  /** Slots that differ at most in their references. */
  ghost predicate SameLabels(slots: seq<Slot>, now: seq<Slot>)
  {
    && |slots| == |now|
    && forall s :: 0 <= s < |slots| ==> now[s].number == slots[s].number && now[s].newNumber == slots[s].newNumber
  }

  /** No slot has a committed label yet. */
  ghost predicate Blank(slots: seq<Slot>)
  {
    forall s :: 0 <= s < |slots| ==> slots[s].number == LC_FREE
  }

  /** The oldest of `n` transactions that a ring of `size` blocks still holds when the next block is torn, or not. */
  function Oldest(n: nat, size: nat, torn: bool): nat
  {
    if n < size then 0 else if torn then n - size + 1 else n - size
  }

  /** Every transaction that no later one replaced is on disk at its place, and no other place holds one. */
  ghost predicate Recorded(disk: seq<Block>, log: seq<Transaction>, stripes: nat, stripeSize: nat)
    requires stripes > 0
  {
    && |disk| == stripes * stripeSize > 0
    && (forall b :: 0 <= b < |disk| ==> !disk[b].Invalid? && (disk[b].Written? ==> disk[b].t.Shape()))
    && (forall j: nat :: j < |log| && Kept(j, |log|, |disk|) ==>
          OnDisk(disk, AlStripes.Block(stripes, stripeSize, Position(j, |disk|)), log[j]))
    && forall p: nat :: p < |disk| && Untaken(|log|, p, |disk|) ==>
         NoneThere(disk, AlStripes.Block(stripes, stripeSize, p))
  }

  /** No transaction so far went to position `p`. */
  ghost predicate Untaken(n: nat, p: nat, size: nat)
    requires size > 0
  {
    forall j: nat :: j < n ==> Position(j, size) != p
  }

  ghost predicate NoneThere(disk: seq<Block>, b: nat) {
    b < |disk| && !disk[b].Written?
  }

  ghost predicate OnDisk(disk: seq<Block>, b: nat, t: Transaction) {
    b < |disk| && disk[b] == Written(t)
  }

  lemma NothingRecorded(disk: seq<Block>, stripes: nat, stripeSize: nat)
    requires stripes > 0 && 0 < |disk| == stripes * stripeSize < U32
    requires forall b :: 0 <= b < |disk| ==> disk[b].Initialized?
    ensures Recorded(disk, [], stripes, stripeSize)
  {
    hide AlStripes.Block, Position;
    forall p: nat | p < |disk| ensures NoneThere(disk, AlStripes.Block(stripes, stripeSize, p)) {
      AlStripes.BlockSmall(stripes, stripeSize, p);
    }
  }

  // ---- one more transaction

  lemma CycleNext(nr: nat, n: nat)
    requires n > 0
    ensures Cycle(nr, n) == NextCycle(nr, Cycle(nr, n - 1))
  {
  }

  lemma NumberNext(number: nat, n: nat)
    requires n > 0 && number == (n - 1) % U32
    ensures (number + 1) % U32 == n % U32
  {
  }

  lemma LogExtends(log: seq<Transaction>, hist: seq<seq<Slot>>, nr: nat, t: Transaction, slots: seq<Slot>)
    requires Run(hist, nr) && Logged(log, hist, nr) && |slots| == nr
    requires if hist == [] then Blank(slots) else Follows(slots, hist[|hist| - 1])
    requires Describes(t, slots, Cycle(nr, |log|), |log| % U32)
    ensures Run(hist + [slots], nr) && Logged(log + [t], hist + [slots], nr)
  {
    hide Describes, Cycle;
    var n := |hist|;
    var more: seq<seq<Slot>> := hist + [slots];
    forall k, s | 0 <= k < n && 0 <= s < nr
      ensures more[k + 1][s].number == more[k][s].newNumber || more[k + 1][s].number == LC_FREE
    {
      if k + 1 < n {
        assert hist[k + 1][s].number == hist[k][s].newNumber || hist[k + 1][s].number == LC_FREE;
      }
    }
  }

  lemma KeptBefore(j: nat, n: nat, size: nat)
    requires size > 0 && j < n && Kept(j, n + 1, size)
    ensures Kept(j, n, size) && Position(j, size) != Position(n, size)
  {
  }

  lemma UntakenBefore(n: nat, p: nat, size: nat)
    requires size > 0 && Untaken(n + 1, p, size)
    ensures Untaken(n, p, size) && Position(n, size) != p
  {
    hide Position;
  }

  lemma NextInside(n: nat, stripes: nat, stripeSize: nat)
    requires stripes > 0 && 0 < stripes * stripeSize < U32
    ensures Position(n, stripes * stripeSize) < stripes * stripeSize
    ensures AlStripes.Block(stripes, stripeSize, Position(n, stripes * stripeSize)) < stripes * stripeSize
  {
    hide AlStripes.Block;
    var size := stripes * stripeSize;
    DivMod(n % U32, size);
    AlStripes.BlockSmall(stripes, stripeSize, n % U32 % size);
  }

  lemma PlacesDiffer(i: nat, j: nat, stripes: nat, stripeSize: nat)
    requires stripes > 0 && 0 < stripes * stripeSize < U32
    requires Position(i, stripes * stripeSize) != Position(j, stripes * stripeSize)
    ensures AlStripes.Block(stripes, stripeSize, Position(i, stripes * stripeSize))
         != AlStripes.Block(stripes, stripeSize, Position(j, stripes * stripeSize))
  {
    hide AlStripes.Block, Position;
    NextInside(i, stripes, stripeSize);
    NextInside(j, stripes, stripeSize);
    var a, b := Position(i, stripes * stripeSize), Position(j, stripes * stripeSize);
    if AlStripes.Block(stripes, stripeSize, a) == AlStripes.Block(stripes, stripeSize, b) {
      AlStripes.BlockInjective(stripes, stripeSize, a, b);
    }
  }

  lemma RecordNext(disk: seq<Block>, log: seq<Transaction>, stripes: nat, stripeSize: nat, t: Transaction)
    requires stripes > 0 && stripes * stripeSize < U32 && t.Shape() && Recorded(disk, log, stripes, stripeSize)
    ensures Position(|log|, |disk|) < |disk|
    ensures AlStripes.Block(stripes, stripeSize, Position(|log|, |disk|)) < |disk|
    ensures Recorded(disk[AlStripes.Block(stripes, stripeSize, Position(|log|, |disk|)) := Written(t)], log + [t],
                     stripes, stripeSize)
  {
    hide AlStripes.Block, Position, Kept, Untaken;
    var n := |log|;
    NextInside(n, stripes, stripeSize);
    var at := AlStripes.Block(stripes, stripeSize, Position(n, |disk|));
    var disk' := disk[at := Written(t)];
    forall j: nat | j < n + 1 && Kept(j, n + 1, |disk|)
      ensures OnDisk(disk', AlStripes.Block(stripes, stripeSize, Position(j, |disk|)), (log + [t])[j])
    {
      if j < n {
        KeptBefore(j, n, |disk|);
        PlacesDiffer(j, n, stripes, stripeSize);
      }
    }
    forall p: nat | p < |disk| && Untaken(n + 1, p, |disk|)
      ensures NoneThere(disk', AlStripes.Block(stripes, stripeSize, p))
    {
      UntakenBefore(n, p, |disk|);
      if AlStripes.Block(stripes, stripeSize, p) == at {
        AlStripes.BlockInjective(stripes, stripeSize, p, Position(n, |disk|));
      }
    }
  }

  // ---- the ring after a crash

  lemma RecordedShapes(disk: seq<Block>, log: seq<Transaction>, stripes: nat, stripeSize: nat)
    requires stripes > 0 && Recorded(disk, log, stripes, stripeSize)
    ensures forall b :: 0 <= b < |disk| && disk[b].Written? ==> disk[b].t.Shape()
  {
    hide AlStripes.Block, Position, Kept, Untaken;
  }

  /** The position `b` of the ring belongs to the transaction that is `Age` after the window's first. */
  lemma TransactionAt(lo: nat, b: nat, size: nat) returns (j: nat)
    requires 0 < size && b < size && Steady(lo, lo + size, size)
    ensures Position(lo, size) < size && j == lo + Age(b, Position(lo, size), size) < lo + size
    ensures Position(j, size) == b
  {
    hide Position;
    PositionAge(lo, lo, lo + size, size);
    j := lo + Age(b, Position(lo, size), size);
    PositionAge(lo, j, lo + size, size);
    AgeInjective(b, Position(j, size), Position(lo, size), size);
  }

  /** The log area with the block of the next transaction torn, or not. */
  ghost predicate Crashed(disk: seq<Block>, blocks: seq<Block>, n: nat, stripes: nat, stripeSize: nat, torn: bool)
    requires stripes > 0 && |disk| > 0
  {
    var at := AlStripes.Block(stripes, stripeSize, Position(n, |disk|));
    at < |disk| && blocks == if torn then disk[at := Invalid] else disk
  }

  /** Position `b` holds its transaction of the window, if that has been written. */
  lemma RingBlock(disk: seq<Block>, blocks: seq<Block>, ring: seq<Block>, log: seq<Transaction>,
                  stripes: nat, stripeSize: nat, torn: bool, lo: nat, b: nat)
    requires stripes > 0 && stripes * stripeSize < U32 && Recorded(disk, log, stripes, stripeSize)
    requires lo <= |log| <= lo + |disk| && (torn ==> |log| < lo + |disk|) && Steady(lo, lo + |disk|, |disk|)
    requires |log| < lo + |disk| ==> lo == 0 || (torn && |log| + 1 == lo + |disk|)
    requires Crashed(disk, blocks, |log|, stripes, stripeSize, torn)
    requires InPositionOrder(ring, blocks, stripes, stripeSize) && b < |disk|
    ensures Position(lo, |disk|) < |disk|
    ensures if Age(b, Position(lo, |disk|), |disk|) < |log| - lo
            then ring[b] == Written(log[lo + Age(b, Position(lo, |disk|), |disk|)]) else !ring[b].Written?
  {
    hide AlStripes.Block, Position, Kept, Age, Steady, Untaken;
    var j := TransactionAt(lo, b, |disk|);
    if j < |log| {
      KeptInSteady(lo, j, lo + |disk|, |disk|);
      KeptShorter(j, |log|, lo + |disk|, |disk|);
      if torn {
        PlacesDiffer(j, |log|, stripes, stripeSize);
      }
    } else if lo == 0 {
      StillUntaken(|log|, j, |disk|);
    }
  }

  /** Before the ring is full, the positions ahead are untaken. */
  lemma StillUntaken(n: nat, j: nat, size: nat)
    requires n <= j < size && Steady(0, size, size)
    ensures Untaken(n, Position(j, size), size)
  {
    hide Position, Age, Steady;
    forall i: nat | i < n ensures Position(i, size) != Position(j, size) {
      PositionAge(0, i, size, size);
      PositionAge(0, j, size, size);
    }
  }

  lemma NoneWritten(disk: seq<Block>, blocks: seq<Block>, ring: seq<Block>, log: seq<Transaction>,
                    stripes: nat, stripeSize: nat, torn: bool)
    requires stripes > 0 && stripes * stripeSize < U32 && Recorded(disk, log, stripes, stripeSize) && log == []
    requires Crashed(disk, blocks, 0, stripes, stripeSize, torn) && InPositionOrder(ring, blocks, stripes, stripeSize)
    ensures |ring| == |disk| && NoUpdates(ring) && AtMostFirstBad(ring) && (|ring| > 1 ==> !NoneReadable(ring))
  {
    hide AlStripes.Block, Kept;
    SmallModulo(0);
    Quotient(0, 0, |disk|);
    forall b: nat | b < |ring| ensures !ring[b].Written? && (b > 0 ==> !ring[b].Invalid?) {
      assert Untaken(0, b, |disk|);
      if b > 0 && AlStripes.Block(stripes, stripeSize, b) == AlStripes.Block(stripes, stripeSize, 0) {
        AlStripes.BlockInjective(stripes, stripeSize, b, 0);
      }
    }
    if |ring| > 1 {
      assert !ring[1].Invalid?;
    }
  }

  lemma KeptShorter(j: nat, n: nat, m: nat, size: nat)
    requires size > 0 && n <= m && Kept(j, m, size)
    ensures Kept(j, n, size)
    ensures j < n < m ==> Position(n, size) != Position(j, size)
  {
  }

  lemma LoggedNumbers(log: seq<Transaction>, hist: seq<seq<Slot>>, nr: nat)
    requires Logged(log, hist, nr)
    ensures |log| == |hist|
    ensures forall k :: 0 <= k < |log| ==> log[k].Shape() && log[k].number == k % U32
  {
    hide Cycle;
    forall k | 0 <= k < |log| ensures log[k].Shape() && log[k].number == k % U32 {
      assert Describes(log[k], hist[k], Cycle(nr, k), k % U32);
    }
  }

  lemma RingWindow(disk: seq<Block>, blocks: seq<Block>, ring: seq<Block>, log: seq<Transaction>,
                   stripes: nat, stripeSize: nat, torn: bool, lo: nat)
    requires stripes > 0 && stripes * stripeSize < U32 / 2 && Recorded(disk, log, stripes, stripeSize)
    requires lo < |log| <= lo + |disk| && (torn ==> |log| < lo + |disk|) && Steady(lo, lo + |disk|, |disk|)
    requires |log| < lo + |disk| ==> lo == 0 || (torn && |log| + 1 == lo + |disk|)
    requires Crashed(disk, blocks, |log|, stripes, stripeSize, torn)
    requires InPositionOrder(ring, blocks, stripes, stripeSize)
    requires forall k :: 0 <= k < |log| ==> log[k].Shape() && log[k].number == k % U32
    ensures HoldsWindow(ring, log, lo, |log|)
  {
    hide AlStripes.Block, Position, Kept, Age, Steady, Recorded, Crashed;
    SameLength(disk, ring, log, stripes, stripeSize, blocks, torn);
    RingBlock(disk, blocks, ring, log, stripes, stripeSize, torn, lo, 0);
    forall b | 0 <= b < |ring|
      ensures if Age(b, Position(lo, |disk|), |disk|) < |log| - lo
              then ring[b] == Written(log[lo + Age(b, Position(lo, |disk|), |disk|)]) else !ring[b].Written?
    {
      RingBlock(disk, blocks, ring, log, stripes, stripeSize, torn, lo, b);
    }
  }

  lemma AllRecovered(log: seq<Transaction>, hist: seq<seq<Slot>>, nr: nat, size: nat, lo: nat)
    requires Tables(hist, nr) && Logged(log, hist, nr) && nr <= size <= AL_EXTENTS_MAX
    requires lo <= |log| == |hist| && (lo == 0 || lo + Windows(nr) <= |log|)
    ensures forall k :: 0 <= k < |log| ==> log[k].Shape()
    ensures forall s :: 0 <= s < size ==>
              Replayed(log, lo, |log|, size)[s] == if s < nr then Shown(hist, nr, |hist|, s) else LC_FREE
  {
    hide Cycle, Applied, Describes, Replayed, Shown;
    LoggedShape(log, hist, nr);
    forall s | 0 <= s < size
      ensures Replayed(log, lo, |log|, size)[s] == if s < nr then Shown(hist, nr, |hist|, s) else LC_FREE
    {
      ReplayRecovers(log, hist, nr, size, lo, |log|, s);
    }
  }

  lemma NothingShown(hist: seq<seq<Slot>>, nr: nat)
    requires Tables(hist, nr) && hist == []
    ensures forall s :: 0 <= s < nr ==> Shown(hist, nr, 0, s) == LC_FREE
  {
  }

  lemma SameLength(disk: seq<Block>, ring: seq<Block>, log: seq<Transaction>, stripes: nat, stripeSize: nat,
                   blocks: seq<Block>, torn: bool)
    requires stripes > 0 && Recorded(disk, log, stripes, stripeSize)
    requires Crashed(disk, blocks, |log|, stripes, stripeSize, torn)
    requires InPositionOrder(ring, blocks, stripes, stripeSize)
    ensures |ring| == |disk| == stripes * stripeSize > 0
  {
    hide AlStripes.Block, Position, Kept, Age, Untaken;
  }

  /**
   * A ring of 9 blocks, initialised again and again: once the number has wrapped around, transactions 2^32 to
   * 2^32 + 3 have replaced the four before them, although those are among the last nine.
   */
  method WrapOverwrites() returns (l: BsrActivityLog)
    ensures l.Valid() && |l.disk| == 9 && |l.log| == U32 + 5 && !Kept(U32 - 1, |l.log|, 9) && !l.Recoverable(false)
  {
    hide BsrActivityLog.Valid, BsrActivityLog.Recoverable;
    l := new BsrActivityLog(1, 9, 67);
    var n := 0;
    NineBlocks(l);
    while n < 477218589
      invariant 0 <= n <= 477218589 && l.Valid() && |l.disk| == 9 && |l.log| == 9 * n && fresh(l)
    {
      l.Initialize();
      n := n + 1;
    }
    assert Position(U32 + 3, 9) == Position(U32 - 1, 9);
    NotRecoverable(l);
  }

  lemma NineBlocks(l: BsrActivityLog)
    requires l.Valid() && l.stripes == 1 && l.stripeSize == 9
    ensures |l.disk| == 9
  {
  }

  lemma NotRecoverable(l: BsrActivityLog)
    requires |l.disk| == 9 && |l.log| == U32 + 5
    ensures !l.Recoverable(false)
  {
  }

  /** Extent 0 is logged and its slot freed again: memory has no label any more, and the log still tells of extent 0. */
  method FreedComesBack() returns (l: BsrActivityLog)
    ensures l.Valid() && |l.al.slots| == 67 && l.al.slots[0].number == LC_FREE
    ensures Tables(l.hist, 67) && Shown(l.hist, 67, |l.hist|, 0) == 0
  {
    hide Run, Logged, Recorded, Cache.Valid, Count, Follows, Blank, Cycle;
    l := new BsrActivityLog(1, 9, 67);
    AskFirst(67);
    var e := l.Get(0, true, false, 0);
    ghost var asked := l.al.slots;
    l.Commit();
    l.Put(0);
    l.Free(0);
    assert l.hist == [asked] && Tables(l.hist, 67);
  }

  lemma AskFirst(nr: nat)
    requires nr > 0
    ensures EmptyLog(nr).Recyclable(0)
    ensures var d := EmptyLog(nr).Get(0, true, false, 0).0; d.slots[0] == Slot(LC_FREE, 0, 1) && d.pending == 1
  {
    var c := EmptyLog(nr);
    assert c.slots[0].refcnt == 0 && c.Find(0, true).None?;
  }
}

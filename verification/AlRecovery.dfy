/**
 * Activity-log transactions and what replaying them reconstructs. A transaction carries a window of the slot
 * table and the slots that are about to change; the window moves on with every transaction.
 */
module AlRecovery {
  import opened Arithmetic
  import opened LruCache

  const AL_UPDATES := 64
  const AL_CONTEXT := 919
  const AL_EXTENTS_MAX := 65534
  const U16_MAX := 0xFFFF

  datatype Update = Update(slot: nat, extent: nat)

  /** `al_transaction_on_disk`, without magic and checksum. */
  datatype Transaction = Transaction(number: nat, nUpdates: nat, updates: seq<Update>,
                                     contextSize: nat, contextStart: nat, context: seq<nat>)
  {
    ghost predicate Shape() { |updates| == AL_UPDATES && |context| == AL_CONTEXT }
  }

  type Table = seq<nat>

  // ---- replaying one transaction

  /** The context entry for slot `s`, where the transaction has one to apply. */
  predicate HasContext(t: Transaction, s: nat)
    requires t.Shape()
  {
    && t.contextStart <= s < t.contextStart + AL_CONTEXT
    && !(t.context[s - t.contextStart] == LC_FREE && s >= t.contextSize)
  }

  function AfterContext(hot: Table, t: Transaction): (r: Table)
    requires t.Shape()
    ensures |r| == |hot|
  {
    seq(|hot|, s requires 0 <= s < |hot| => if HasContext(t, s) then t.context[s - t.contextStart] else hot[s])
  }

  function AfterUpdates(hot: Table, t: Transaction, n: nat): (r: Table)
    requires t.Shape() && n <= AL_UPDATES
    ensures |r| == |hot|
  {
    if n == 0 then hot
    else
      var r := AfterUpdates(hot, t, n - 1);
      var u := t.updates[n - 1];
      if (n - 1 >= t.nUpdates && u.slot == U16_MAX) || u.slot >= |hot| then r else r[u.slot := u.extent]
  }

  /** One round of the replay loop: the window first, then the changes. */
  function Applied(hot: Table, t: Transaction): (r: Table)
    requires t.Shape()
    ensures |r| == |hot|
  {
    AfterUpdates(AfterContext(hot, t), t, AL_UPDATES)
  }

  // ---- what the kernel writes

  /** Where the window of transaction `k` starts (`al_tr_cycle`). */
  function Cycle(nr: nat, k: nat): nat
  {
    if k == 0 then 0
    else NextCycle(nr, Cycle(nr, k - 1))
  }

  function NextCycle(nr: nat, cycle: nat): nat
  {
    if cycle + AL_CONTEXT >= nr then 0 else cycle + AL_CONTEXT
  }

  /** The changes listed are the slots with a pending change, and nothing else. */
  ghost predicate UpdatesOf(n: nat, updates: seq<Update>, slots: seq<Slot>)
  {
    && n <= AL_UPDATES == |updates|
    && (forall i :: 0 <= i < n ==>
          && updates[i].slot < |slots| && slots[updates[i].slot].Pending()
          && updates[i].extent == slots[updates[i].slot].newNumber)
    && (forall i :: n <= i < AL_UPDATES ==> updates[i] == Update(U16_MAX, LC_FREE))
    && (forall s :: 0 <= s < |slots| && slots[s].Pending() ==> Listed(updates, n, s))
  }

  ghost predicate Listed(updates: seq<Update>, n: nat, s: nat)
    requires n <= |updates|
  {
    exists i :: 0 <= i < n && updates[i].slot == s
  }

  /** The window shows the labels committed so far. */
  ghost predicate ContextOf(context: seq<nat>, slots: seq<Slot>, cycle: nat)
  {
    && |context| == AL_CONTEXT
    && forall i :: 0 <= i < AL_CONTEXT ==>
         context[i] == if cycle + i < |slots| then slots[cycle + i].number else LC_FREE
  }

  ghost predicate Describes(t: Transaction, slots: seq<Slot>, cycle: nat, number: nat)
  {
    && t.Shape() && UpdatesOf(t.nUpdates, t.updates, slots) && ContextOf(t.context, slots, cycle)
    && t.contextSize == |slots| && t.contextStart == cycle && t.number == number
  }

  /** Tables of `nr` slots. */
  ghost predicate Tables(hist: seq<seq<Slot>>, nr: nat)
  {
    forall k :: 0 <= k < |hist| ==> |hist[k]| == nr
  }

  /** Tables between two commits: every pending label becomes the committed one, unless the slot is freed (`lc_del`). */
  ghost predicate Run(hist: seq<seq<Slot>>, nr: nat)
  {
    && Tables(hist, nr)
    && (hist != [] ==> forall s :: 0 <= s < nr ==> hist[0][s].number == LC_FREE)
    && (forall k, s :: 0 <= k < |hist| - 1 && 0 <= s < nr ==>
          hist[k + 1][s].number == hist[k][s].newNumber || hist[k + 1][s].number == LC_FREE)
  }

  /** No slot was freed between transactions `lo` and `hi`. */
  ghost predicate Unfreed(hist: seq<seq<Slot>>, nr: nat, lo: nat, hi: nat)
    requires Tables(hist, nr) && hi <= |hist|
  {
    forall k, s :: lo <= k < hi - 1 && 0 <= s < nr ==> hist[k + 1][s].number == hist[k][s].newNumber
  }

  /** Slot `s` is in the window of transaction `k`. */
  predicate InWindow(nr: nat, k: nat, s: nat)
  {
    Cycle(nr, k) <= s < Cycle(nr, k) + AL_CONTEXT
  }

  /** The label of slot `s` that the first `hi` transactions tell: from the last one that changed or showed the slot. */
  ghost function Shown(hist: seq<seq<Slot>>, nr: nat, hi: nat, s: nat): nat
    requires Tables(hist, nr) && hi <= |hist| && s < nr
  {
    if hi == 0 then LC_FREE
    else if hist[hi - 1][s].Pending() || InWindow(nr, hi - 1, s) then hist[hi - 1][s].newNumber
    else Shown(hist, nr, hi - 1, s)
  }

  /** Transaction `k` was written when the slots were `hist[k]`. */
  ghost predicate Logged(log: seq<Transaction>, hist: seq<seq<Slot>>, nr: nat)
  {
    && |log| == |hist|
    && forall k :: 0 <= k < |log| ==> Describes(log[k], hist[k], Cycle(nr, k), k % U32)
  }

  /** Transactions `lo..hi` replayed on a table of free slots. */
  ghost function Replayed(log: seq<Transaction>, lo: nat, hi: nat, size: nat): (r: Table)
    requires lo <= hi <= |log|
    requires forall k :: lo <= k < hi ==> log[k].Shape()
    ensures |r| == size
  {
    if lo == hi then seq(size, _ => LC_FREE)
    else Applied(Replayed(log, lo, hi - 1, size), log[hi - 1])
  }

  // ---- one transaction

  lemma {:induction false} UpdatesAt(hot: Table, t: Transaction, slots: seq<Slot>, n: nat, s: nat)
    requires t.Shape() && UpdatesOf(t.nUpdates, t.updates, slots) && |slots| <= |hot| <= AL_EXTENTS_MAX
    requires n <= AL_UPDATES && s < |hot|
    ensures AfterUpdates(hot, t, n)[s]
         == if s < |slots| && Listed(t.updates, if n < t.nUpdates then n else t.nUpdates, s) then slots[s].newNumber
            else hot[s]
  {
    if n > 0 {
      UpdatesAt(hot, t, slots, n - 1, s);
    }
  }

  /** A replayed transaction: windowed slots show their label, changed slots the new one, others keep what they had. */
  lemma AppliedAt(hot: Table, t: Transaction, slots: seq<Slot>, cycle: nat, number: nat, s: nat)
    requires Describes(t, slots, cycle, number) && |slots| <= |hot| <= AL_EXTENTS_MAX && s < |hot|
    ensures s < |slots| && slots[s].Pending() ==> Applied(hot, t)[s] == slots[s].newNumber
    ensures s < |slots| && !slots[s].Pending() && cycle <= s < cycle + AL_CONTEXT ==>
              Applied(hot, t)[s] == slots[s].newNumber
    ensures s < |slots| && !slots[s].Pending() && !(cycle <= s < cycle + AL_CONTEXT) ==> Applied(hot, t)[s] == hot[s]
    ensures s >= |slots| ==> Applied(hot, t)[s] == hot[s]
  {
    UpdatesAt(AfterContext(hot, t), t, slots, AL_UPDATES, s);
    if s < |slots| && !slots[s].Pending() && Listed(t.updates, t.nUpdates, s) {
      assert false;
    }
    if cycle <= s < cycle + AL_CONTEXT {
      assert t.context[s - cycle] == if s < |slots| then slots[s].number else LC_FREE;
    }
  }

  // ---- the window comes round

  function Windows(nr: nat): nat
  {
    (nr + AL_CONTEXT - 1) / AL_CONTEXT
  }

  lemma {:induction false} CycleIs(nr: nat, k: nat)
    requires nr > 0
    ensures Windows(nr) > 0 && Cycle(nr, k) == AL_CONTEXT * (k % Windows(nr))
  {
    var w := Windows(nr);
    if k > 0 {
      CycleIs(nr, k - 1);
      StepModulo(k - 1, w);
    }
  }

  /** Every slot's window is among any `Windows(nr)` consecutive transactions. */
  lemma WindowComesRound(nr: nat, lo: nat, s: nat) returns (k: nat)
    requires s < nr
    ensures lo <= k < lo + Windows(nr) && InWindow(nr, k, s)
  {
    k := HitRemainder(lo, Windows(nr), s / AL_CONTEXT);
    CycleIs(nr, k);
  }

  // ---- whole runs

  /** From the slot's window on, a replay tells what the whole log tells. */
  lemma {:induction false} ReplayShows(log: seq<Transaction>, hist: seq<seq<Slot>>, nr: nat, size: nat, lo: nat, k: nat,
                                       hi: nat, s: nat)
    requires Tables(hist, nr) && Logged(log, hist, nr) && nr <= size <= AL_EXTENTS_MAX
    requires lo <= hi <= |log| && s < nr && (lo == 0 || (lo <= k < hi && InWindow(nr, k, s)))
    ensures forall j :: 0 <= j < |log| ==> log[j].Shape()
    ensures Replayed(log, lo, hi, size)[s] == Shown(hist, nr, hi, s)
    decreases hi
  {
    hide Applied, Cycle, Describes, InWindow;
    LoggedShape(log, hist, nr);
    if lo < hi {
      AppliedIn(log, hist, nr, Replayed(log, lo, hi - 1, size), hi - 1, s);
      if lo == 0 || k < hi - 1 {
        ReplayShows(log, hist, nr, size, lo, k, hi - 1, s);
      }
    }
  }

  /** A slot that still has a label is shown with it; one that was freed may be shown with an old one. */
  lemma {:induction false} ShownLabels(hist: seq<seq<Slot>>, nr: nat, hi: nat, s: nat)
    requires Run(hist, nr) && 0 < hi <= |hist| && s < nr
    ensures hist[hi - 1][s].newNumber != LC_FREE ==> Shown(hist, nr, hi, s) == hist[hi - 1][s].newNumber
  {
    hide Cycle, InWindow;
    if hi > 1 {
      ShownLabels(hist, nr, hi - 1, s);
      assert hist[hi - 2 + 1][s].number == hist[hi - 2][s].newNumber || hist[hi - 2 + 1][s].number == LC_FREE;
    }
  }

  /**
   * Once its window has come round and no slot is freed any more, a slot is shown with the label it has, or as free.
   */
  lemma {:induction false} SlotFollows(hist: seq<seq<Slot>>, nr: nat, k: nat, hi: nat, s: nat)
    requires Run(hist, nr) && k < hi <= |hist| && s < nr && InWindow(nr, k, s) && Unfreed(hist, nr, k, hi)
    ensures Shown(hist, nr, hi, s) == hist[hi - 1][s].newNumber
  {
    hide Cycle, InWindow;
    if k < hi - 1 {
      SlotFollows(hist, nr, k, hi - 1, s);
      assert hist[hi - 2 + 1][s].number == hist[hi - 2][s].newNumber;
    }
  }

  /** As long as no slot has been freed at all, the labels shown are the current ones. */
  lemma {:induction false} UnfreedShown(hist: seq<seq<Slot>>, nr: nat, hi: nat, s: nat)
    requires Run(hist, nr) && 0 < hi <= |hist| && s < nr && Unfreed(hist, nr, 0, hi)
    ensures Shown(hist, nr, hi, s) == hist[hi - 1][s].newNumber
  {
    hide Cycle, InWindow;
    if hi > 1 {
      UnfreedShown(hist, nr, hi - 1, s);
      assert hist[hi - 2 + 1][s].number == hist[hi - 2][s].newNumber;
    }
  }

  lemma LoggedShape(log: seq<Transaction>, hist: seq<seq<Slot>>, nr: nat)
    requires Logged(log, hist, nr)
    ensures forall k :: 0 <= k < |log| ==> log[k].Shape()
  {
    hide Cycle;
    forall k | 0 <= k < |log| ensures log[k].Shape() {
      assert Describes(log[k], hist[k], Cycle(nr, k), k % U32);
    }
  }

  lemma AppliedIn(log: seq<Transaction>, hist: seq<seq<Slot>>, nr: nat, hot: Table, k: nat, s: nat)
    requires Tables(hist, nr) && Logged(log, hist, nr) && nr <= |hot| <= AL_EXTENTS_MAX && k < |log| && s < |hot|
    ensures log[k].Shape()
    ensures s < nr && (hist[k][s].Pending() || InWindow(nr, k, s)) ==>
              Applied(hot, log[k])[s] == hist[k][s].newNumber
    ensures s >= nr || !(hist[k][s].Pending() || InWindow(nr, k, s)) ==>
              Applied(hot, log[k])[s] == hot[s]
  {
    hide Applied, Cycle, UpdatesOf, ContextOf;
    assert Describes(log[k], hist[k], Cycle(nr, k), k % U32);
    AppliedAt(hot, log[k], hist[k], Cycle(nr, k), k % U32, s);
  }

  lemma {:induction false} BeyondStaysFree(log: seq<Transaction>, hist: seq<seq<Slot>>, nr: nat, size: nat,
                                           lo: nat, hi: nat, s: nat)
    requires Tables(hist, nr) && Logged(log, hist, nr) && nr <= s < size <= AL_EXTENTS_MAX
    requires lo <= hi <= |log|
    ensures forall k :: 0 <= k < |log| ==> log[k].Shape()
    ensures Replayed(log, lo, hi, size)[s] == LC_FREE
  {
    hide Applied, Cycle, Describes;
    LoggedShape(log, hist, nr);
    if lo < hi {
      BeyondStaysFree(log, hist, nr, size, lo, hi - 1, s);
      AppliedIn(log, hist, nr, Replayed(log, lo, hi - 1, size), hi - 1, s);
    }
  }

  /**
   * Replaying as many transactions as the table has windows, or all of them, gives exactly what the whole log tells.
   */
  lemma ReplayRecovers(log: seq<Transaction>, hist: seq<seq<Slot>>, nr: nat, size: nat, lo: nat, hi: nat, s: nat)
    requires Tables(hist, nr) && Logged(log, hist, nr) && nr <= size <= AL_EXTENTS_MAX
    requires lo <= hi <= |log| && (lo == 0 || lo + Windows(nr) <= hi) && s < size
    ensures forall k :: 0 <= k < |log| ==> log[k].Shape()
    ensures Replayed(log, lo, hi, size)[s] == if s < nr then Shown(hist, nr, hi, s) else LC_FREE
  {
    hide Applied, Cycle, Describes, InWindow;
    LoggedShape(log, hist, nr);
    if s >= nr {
      BeyondStaysFree(log, hist, nr, size, lo, hi, s);
    } else {
      var k := WindowComesRound(nr, lo, s);
      ReplayShows(log, hist, nr, size, lo, k, hi, s);
    }
  }

  // ---- how many slots the ring can carry

  /** `bsr_al_extents_max`: the ring may lose the block that is being written. */
  function ExtentsMax(blocks: nat): nat
    requires blocks > 0
  {
    if blocks > (AL_EXTENTS_MAX + AL_CONTEXT - 1) / AL_CONTEXT then AL_EXTENTS_MAX else (blocks - 1) * AL_CONTEXT
  }

  /** The limit on the number of slots leaves every window on disk even when one block is lost. */
  lemma ExtentsMaxFits(nr: nat, blocks: nat)
    requires blocks > 0 && nr <= ExtentsMax(blocks)
    ensures Windows(nr) <= blocks - 1 && nr <= AL_EXTENTS_MAX
  {
  }

  /** Slots that each hold their own extent, unused. */
  function Full(nr: nat): (r: seq<Slot>)
    ensures |r| == nr
  {
    seq(nr, s requires 0 <= s < nr => Slot(s, s, 0))
  }

  function FullTransaction(nr: nat, k: nat): (t: Transaction)
    ensures Describes(t, Full(nr), Cycle(nr, k), k % U32)
  {
    Transaction(k % U32, 0, seq(AL_UPDATES, _ => Update(U16_MAX, LC_FREE)), nr, Cycle(nr, k),
                seq(AL_CONTEXT, i requires 0 <= i => if Cycle(nr, k) + i < nr then Cycle(nr, k) + i else LC_FREE))
  }

  lemma {:induction false} EarlyCycle(nr: nat, k: nat)
    requires k * AL_CONTEXT < nr
    ensures Cycle(nr, k) == k * AL_CONTEXT
  {
    if k > 0 {
      EarlyCycle(nr, k - 1);
    }
  }

  /** One slot more than the windows of `n` transactions cover, and replaying those `n` can lose it. */
  lemma {:induction false} TooManySlots(nr: nat, n: nat, size: nat, log: seq<Transaction>, hi: nat)
    requires n * AL_CONTEXT < nr <= size <= AL_EXTENTS_MAX && hi <= n == |log|
    requires forall k :: 0 <= k < n ==> log[k] == FullTransaction(nr, k)
    ensures var hist := seq(n, _ => Full(nr)); Tables(hist, nr) && Unfreed(hist, nr, 0, n) && Logged(log, hist, nr)
    ensures forall k :: 0 <= k < n ==> log[k].Shape()
    ensures Replayed(log, 0, hi, size)[n * AL_CONTEXT] == LC_FREE != Full(nr)[n * AL_CONTEXT].newNumber
  {
    hide Applied, Cycle;
    var s, hist := n * AL_CONTEXT, seq(n, _ => Full(nr));
    LoggedShape(log, hist, nr);
    if hi > 0 {
      TooManySlots(nr, n, size, log, hi - 1);
      EarlyCycle(nr, hi - 1);
      AppliedIn(log, hist, nr, Replayed(log, 0, hi - 1, size), hi - 1, s);
    }
  }
}

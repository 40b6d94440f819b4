/**
 * Bitmap, page write-out and activity log as one state machine. Steps of different contexts interleave freely:
 * setting and clearing bits, writing bitmap pages bit by bit, taking and dropping log references, the sub-steps of
 * one log transaction, and emptying the log for a change of its size. Every state is a possible crash.
 */
module CrashSafety {
  import opened LruCache
  import opened BitmapLayout

  datatype Addr = Addr(k: nat, b: nat)

  /** A page write in progress: the page as it was when its flags were cleared, and the bits that reached the disk. */
  datatype Flight = Flight(snapshot: set<Addr>, moved: set<Addr>)

  /**
   * Where the log transaction stands; `waiting` are the hinted pages whose write it still waits for, `skipped` those
   * it passed over as unchanged while another context was writing them.
   */
  datatype Phase =
    | Idle
    | Locked
    | Writing(hinted: set<nat>, tested: set<nat>, waiting: set<nat>, skipped: set<nat>)
    | Logged
    | Shrinking

  datatype Action =
    | Get(enr: nat, mayChange: bool, mayUseUncommitted: bool, victim: nat)
    | Put(slot: nat)
    | SetBit(a: Addr)
    | ClearBit(a: Addr)
    | StartWrite(page: nat)
    | Transfer(a: Addr, fromSnapshot: bool)
    | Finish(page: nat)
    | Lock
    | Hint
    | TestPage(page: nat)
    | WriteBlock(forget: set<nat>)
    | Commit
    | BeginShrink
    | FreeSlot(slot: nat)
    | EndShrink
    | Replace(slots: nat)

  /**
   * `table` is what replaying the on-disk log would give: the label of every slot, also of slots freed in memory
   * since.
   */
  datatype State = State(peers: nat, bits: nat, al: Cache, table: seq<nat>,
                         core: set<Addr>, disk: set<Addr>, dirty: set<nat>, flight: map<nat, Flight>, phase: Phase)
  {
    predicate Inside(a: Addr) { a.k < peers && a.b < bits }

    function Page(a: Addr): nat { PageOf(peers, a.k, a.b) }

    /** Bits of extent `enr` may be set: the extent is committed to the log and referenced. */
    predicate Hot(enr: nat) {
      exists i :: 0 <= i < |al.slots| && al.slots[i].number == al.slots[i].newNumber == enr && al.slots[i].refcnt > 0
    }

    /** A bit that a crash now would still find marked: on disk, or covered by a logged extent. */
    predicate Survives(a: Addr) {
      a in disk || Extent(a) in table
    }

    /** No out-of-sync mark is lost by a crash. */
    ghost predicate Safe() {
      forall a :: a in core ==> Survives(a)
    }
  }

  function Extent(a: Addr): nat { a.b / AL_EXTENT_BITS }

  function NewLabels(al: Cache): (r: seq<nat>)
    ensures |r| == |al.slots|
  {
    seq(|al.slots|, i requires 0 <= i < |al.slots| => al.slots[i].newNumber)
  }

  function Labels(al: Cache): (r: seq<nat>)
    ensures |r| == |al.slots|
  {
    seq(|al.slots|, i requires 0 <= i < |al.slots| => al.slots[i].number)
  }

  /** Labels of the log in memory: those announced on disk, and the ones in use until then. */
  function CoreLabels(s: State): (r: seq<nat>) {
    if s.phase.Logged? then NewLabels(s.al) else Labels(s.al)
  }

  /**
   * What the next block leaves in the log: it announces every label in memory; slots without one keep what the log
   * has, except those in `forget`, which its window shows free or whose last mention it overwrites.
   */
  function NextTable(s: State, forget: set<nat>): (r: seq<nat>)
    ensures |r| == |s.table|
  {
    seq(|s.table|, i requires 0 <= i < |s.table| =>
      if i < |s.al.slots| && s.al.slots[i].newNumber != LC_FREE then s.al.slots[i].newNumber
      else if i in forget then LC_FREE else s.table[i])
  }

  /** An empty log of `n` slots. */
  function NewLog(n: nat, maxPending: nat): Cache {
    Cache(seq(n, _ => Slot(LC_FREE, LC_FREE, 0)), 0, 0, maxPending, false, false)
  }

  /** The slot's old label, where a pending change evicts one. */
  predicate Evicts(slot: Slot) {
    slot.Pending() && slot.number != LC_FREE
  }

  /** The pages hinted for all evicted extents. */
  ghost predicate Hints(s: State, hinted: set<nat>)
  {
    && (forall i, p | 0 <= i < |s.al.slots| && Evicts(s.al.slots[i])
                      && MarksPage(s.peers, s.bits, s.al.slots[i].number, p) ::
          p in hinted)
    && (forall p :: p in hinted ==>
          exists i ::
            0 <= i < |s.al.slots| && Evicts(s.al.slots[i]) && MarksPage(s.peers, s.bits, s.al.slots[i].number, p))
  }

  // ---- one step

  ghost predicate Begun(s: State, page: nat, t: State) {
    && page !in s.flight
    && t == s.(dirty := s.dirty - {page}, flight := s.flight[page := Flight(s.core, {})])
  }

  ghost predicate AllMoved(s: State, page: nat)
    requires page in s.flight
  {
    forall a :: s.Inside(a) && s.Page(a) == page ==> a in s.flight[page].moved
  }

  ghost predicate Step(s: State, act: Action, t: State)
  {
    match act
    case Get(enr, mayChange, unc, victim) =>
      && enr != LC_FREE && (s.al.UnusedAvailable() ==> s.al.Recyclable(victim))
      && t == s.(al := s.al.Get(enr, mayChange, unc, victim).0)
    case Put(i) =>
      && i < |s.al.slots| && s.al.slots[i].refcnt > 0 && !s.al.slots[i].Pending() && s.al.used > 0
      && t == s.(al := s.al.Put(i))
    case SetBit(a) =>
      && s.Inside(a) && s.Hot(Extent(a))
      && t == s.(core := s.core + {a}, dirty := s.dirty + {s.Page(a)})
    case ClearBit(a) =>
      && t == s.(core := s.core - {a}, dirty := s.dirty + {s.Page(a)})
    case StartWrite(page) =>
      Begun(s, page, t)
    case Transfer(a, fromSnapshot) =>
      && s.Page(a) in s.flight
      && var f := s.flight[s.Page(a)];
         && a !in f.moved
         && t == s.(disk := if a in (if fromSnapshot then f.snapshot else s.core) then s.disk + {a} else s.disk - {a},
                    flight := s.flight[s.Page(a) := f.(moved := f.moved + {a})])
    case Finish(page) =>
      && page in s.flight && AllMoved(s, page)
      && t == s.(flight := s.flight - {page},
                 phase := if s.phase.Writing? then s.phase.(waiting := s.phase.waiting - {page}) else s.phase)
    case Lock =>
      && s.phase.Idle? && s.al.pending > 0
      && t == s.(al := s.al.(locked := true), phase := Locked)
    case Hint =>
      && s.phase.Locked? && t.phase.Writing? && t.phase.tested == t.phase.waiting == t.phase.skipped == {}
      && Hints(s, t.phase.hinted)
      && t == s.(phase := t.phase)
    case TestPage(page) =>
      // a changed page is written once an earlier write has finished; an unchanged one is passed over at once
      && s.phase.Writing? && page in s.phase.hinted && page !in s.phase.tested
      && if page in s.dirty then
           Begun(s.(phase := s.phase.(tested := s.phase.tested + {page}, waiting := s.phase.waiting + {page})), page, t)
         else
           t == s.(phase := s.phase.(tested := s.phase.tested + {page},
                                     skipped := s.phase.skipped + if page in s.flight then {page} else {}))
    case WriteBlock(forget) =>
      && s.phase.Writing? && s.phase.hinted <= s.phase.tested && s.phase.waiting == {}
      && t == s.(table := NextTable(s, forget), phase := Logged)
    case Commit =>
      && s.phase.Logged?
      && t == s.(al := s.al.Committed().(locked := false), phase := Idle)
    case BeginShrink =>
      && s.phase.Idle? && s.al.pending == 0 && !s.al.starving
      && t == s.(al := s.al.(locked := true), phase := Shrinking)
    case FreeSlot(i) =>
      && s.phase.Shrinking? && i < |s.al.slots| && s.al.slots[i].refcnt == 0
      && t == s.(al := s.al.Deleted(i))
    case EndShrink =>
      && s.phase.Shrinking?
      && t == s.(al := s.al.(locked := false), phase := Idle)
    case Replace(n) =>
      && s.phase.Shrinking? && (forall i :: 0 <= i < |s.al.slots| ==> s.al.slots[i].Free())
      && t == s.(al := NewLog(n, s.al.maxPending), phase := Idle,
                 table := s.table + seq(if n > |s.table| then n - |s.table| else 0, _ => LC_FREE))
  }

  // ---- what every step keeps

  /** Extent labels that the next log block drops. */
  ghost predicate Doomed(s: State, enr: nat) {
    enr !in NewLabels(s.al)
  }

  ghost predicate LogInv(s: State) {
    && s.al.Valid()
    && (s.al.locked <==> !s.phase.Idle?)
    && |s.al.slots| <= |s.table|
    && (forall i :: 0 <= i < |s.al.slots| && CoreLabels(s)[i] != LC_FREE ==> s.table[i] == CoreLabels(s)[i])
    && (s.phase.Writing? ==> Hints(s, s.phase.hinted) && s.phase.waiting <= s.flight.Keys)
  }

  /** A mark that is not on disk is on a changed page, or still on its way. */
  ghost predicate PageInv(s: State) {
    && (forall a :: a in s.core ==> s.Inside(a) && Extent(a) != LC_FREE)
    && (forall a :: a in s.core && a !in s.disk ==>
          s.Page(a) in s.dirty || (s.Page(a) in s.flight && a !in s.flight[s.Page(a)].moved))
    && (forall a :: a in s.core && s.Page(a) in s.flight && a !in s.flight[s.Page(a)].snapshot ==>
          s.Page(a) in s.dirty)
  }

  /**
   * On pages already tested, the marks of evicted extents are on disk or on their way; the block waits for the page
   * unless it was skipped.
   */
  ghost predicate TestedInv(s: State) {
    s.phase.Writing? ==>
      forall a :: a in s.core && s.Page(a) in s.phase.tested && Doomed(s, Extent(a)) ==>
        && (s.Page(a) in s.flight ==> a in s.flight[s.Page(a)].snapshot)
        && (a in s.disk || (&& s.Page(a) in s.phase.waiting + s.phase.skipped
                            && s.Page(a) in s.flight && a !in s.flight[s.Page(a)].moved))
  }

  /**
   * What a step needs so as to lose no mark. A block drops labels: those of marks not on disk must not be among them
   * where it passed over the page, or where the slot was freed in memory before. Writing an old copy of a page takes
   * a newer mark off the disk: the log must list its extent.
   */
  ghost predicate Kept(s: State, act: Action) {
    match act
    case WriteBlock(forget) =>
      s.phase.Writing? ==>
        forall a | a in s.core && Extent(a) !in NextTable(s, forget)
                   && (s.Page(a) in s.phase.skipped || Extent(a) !in Labels(s.al)) ::
          a in s.disk
    case Transfer(a, fromSnapshot) =>
      fromSnapshot && a in s.core && s.Page(a) in s.flight && a !in s.flight[s.Page(a)].snapshot ==>
        Extent(a) in s.table
    case _ => true
  }

  /** The writes that were passed over have brought the marks of evicted extents to disk. */
  ghost predicate Drained(s: State) {
    s.phase.Writing? ==>
      forall a :: a in s.core && s.Page(a) in s.phase.skipped && Doomed(s, Extent(a)) ==> a in s.disk
  }

  /** Every mark of the extent in slot `i` is on disk, and no page write under way holds an older copy. */
  ghost predicate Settled(s: State, i: nat) {
    forall a :: a in s.core && i < |s.al.slots| && Extent(a) == s.al.slots[i].number ==>
      a in s.disk && (s.Page(a) in s.flight ==> a in s.flight[s.Page(a)].snapshot)
  }

  /** The same of all marks outside the extents of the log in memory. */
  ghost predicate Tight(s: State) {
    forall a :: a in s.core && Extent(a) !in CoreLabels(s) ==>
      a in s.disk && (s.Page(a) in s.flight ==> a in s.flight[s.Page(a)].snapshot)
  }

  ghost predicate Inv(s: State) {
    && 1 <= s.peers <= MAX_PEERS
    && LogInv(s) && PageInv(s) && TestedInv(s) && s.Safe()
  }

  // ---- steps of the log cache

  lemma HintsSame(s: State, t: State, hinted: set<nat>)
    requires Labels(s.al) == Labels(t.al) && NewLabels(s.al) == NewLabels(t.al) && s.peers == t.peers
    requires s.bits == t.bits
    requires Hints(s, hinted)
    ensures Hints(t, hinted)
  {
    hide MarksPage;
    assert |s.al.slots| == |Labels(s.al)| == |t.al.slots|;
    forall i | 0 <= i < |s.al.slots|
      ensures Evicts(s.al.slots[i]) == Evicts(t.al.slots[i]) && s.al.slots[i].number == t.al.slots[i].number
    {
      assert Labels(s.al)[i] == Labels(t.al)[i] && NewLabels(s.al)[i] == NewLabels(t.al)[i];
    }
  }

  lemma GetKeeps(s: State, enr: nat, mayChange: bool, unc: bool, victim: nat, t: State)
    requires Inv(s) && Step(s, Get(enr, mayChange, unc, victim), t)
    ensures Inv(t)
  {
    hide PageOf, MarksPage, Count;
    GetValid(s.al, enr, mayChange, unc, victim);
    assert Labels(t.al) == Labels(s.al);
    if s.al.locked {
      assert NewLabels(t.al) == NewLabels(s.al);
      if s.phase.Writing? {
        HintsSame(s, t, s.phase.hinted);
      }
    }
  }

  lemma PutKeeps(s: State, i: nat, t: State)
    requires Inv(s) && Step(s, Put(i), t)
    ensures Inv(t)
  {
    hide PageOf, MarksPage, Count;
    PutValid(s.al, i);
    assert Labels(t.al) == Labels(s.al) && NewLabels(t.al) == NewLabels(s.al);
    if s.phase.Writing? {
      HintsSame(s, t, s.phase.hinted);
    }
  }

  lemma LockKeeps(s: State, t: State)
    requires Inv(s) && (Step(s, Lock, t) || Step(s, BeginShrink, t) || Step(s, EndShrink, t))
    ensures Inv(t)
  {
    hide PageOf, MarksPage, Count;
    assert Labels(t.al) == Labels(s.al) && NewLabels(t.al) == NewLabels(s.al);
  }

  lemma HintKeeps(s: State, t: State)
    requires Inv(s) && Step(s, Hint, t)
    ensures Inv(t)
  {
    hide PageOf, MarksPage, Count, Cache.Valid, Labels, NewLabels;
  }

  lemma CommitKeeps(s: State, t: State)
    requires Inv(s) && Step(s, Commit, t)
    ensures Inv(t)
  {
    hide PageOf, MarksPage, Count;
    CommittedValid(s.al);
    assert Labels(t.al) == NewLabels(s.al);
  }

  lemma FreeKeeps(s: State, i: nat, t: State)
    requires Inv(s) && Step(s, FreeSlot(i), t)
    ensures Inv(t)
  {
    hide PageOf, MarksPage, Count;
    DeletedValid(s.al, i);
  }

  lemma ReplaceKeeps(s: State, n: nat, t: State)
    requires Inv(s) && Step(s, Replace(n), t)
    ensures Inv(t)
  {
    hide PageOf, MarksPage, Count;
    CountNone(t.al.slots, UsedSlot);
    CountNone(t.al.slots, PendingSlot);
    forall a | a in s.core && Extent(a) in s.table ensures Extent(a) in t.table {
      var i :| 0 <= i < |s.table| && s.table[i] == Extent(a);
      assert t.table[i] == Extent(a);
    }
  }

  // ---- steps of the bitmap

  lemma SetKeeps(s: State, a: Addr, t: State)
    requires Inv(s) && Step(s, SetBit(a), t)
    ensures Inv(t)
  {
    hide PageOf, MarksPage, Count;
    var i :| 0 <= i < |s.al.slots| && s.al.slots[i].number == s.al.slots[i].newNumber == Extent(a)
             && s.al.slots[i].refcnt > 0;
    assert NewLabels(s.al)[i] == Extent(a) && Labels(s.al)[i] == Extent(a);
    assert CoreLabels(s)[i] == Extent(a) && s.table[i] == Extent(a);
  }

  lemma ClearKeeps(s: State, a: Addr, t: State)
    requires Inv(s) && Step(s, ClearBit(a), t)
    ensures Inv(t)
  {
    hide PageOf, MarksPage, Count, Cache.Valid, Labels, NewLabels;
  }

  lemma StartKeeps(s: State, page: nat, t: State)
    requires Inv(s) && Begun(s, page, t)
    ensures Inv(t)
  {
    hide PageOf, MarksPage, Count, Cache.Valid, Labels, NewLabels;
  }

  lemma TransferKeeps(s: State, a: Addr, fromSnapshot: bool, t: State)
    requires Inv(s) && Step(s, Transfer(a, fromSnapshot), t) && Kept(s, Transfer(a, fromSnapshot))
    ensures Inv(t)
  {
    hide PageOf, MarksPage, Count, Cache.Valid, Labels, NewLabels;
  }

  lemma FinishKeeps(s: State, page: nat, t: State)
    requires Inv(s) && Step(s, Finish(page), t)
    ensures Inv(t)
  {
    hide PageOf, MarksPage, Count, Cache.Valid, Labels, NewLabels;
  }

  // ---- steps of the transaction

  lemma TestKeeps(s: State, page: nat, t: State)
    requires Inv(s) && Step(s, TestPage(page), t)
    ensures Inv(t)
  {
    hide PageOf, MarksPage, Count, Cache.Valid, Labels, NewLabels;
  }

  /** Every page that holds a bit of an evicted extent is hinted. */
  lemma EvictedIsHinted(s: State, i: nat, a: Addr)
    requires Inv(s) && s.phase.Writing? && i < |s.al.slots| && Evicts(s.al.slots[i])
    requires s.Inside(a) && Extent(a) == s.al.slots[i].number
    ensures s.Page(a) in s.phase.hinted
  {
    hide PageOf, MarksPage, Count, Cache.Valid, Labels, NewLabels;
    ExtentIsMarked(s.peers, s.bits, a.k, a.b);
  }

  /** An extent of the log in memory that a block drops was hinted, and its pages have been tested. */
  lemma DroppedIsTested(s: State, forget: set<nat>, t: State, a: Addr)
    requires Inv(s) && Step(s, WriteBlock(forget), t) && a in s.core && Extent(a) in Labels(s.al)
    requires Extent(a) !in NewLabels(s.al)
    ensures s.Page(a) in s.phase.tested && Doomed(s, Extent(a))
  {
    hide PageOf, MarksPage, Count, Cache.Valid;
    var i :| 0 <= i < |s.al.slots| && Labels(s.al)[i] == Extent(a);
    assert NewLabels(s.al)[i] != Extent(a);
    EvictedIsHinted(s, i, a);
  }

  lemma AnnouncedStay(s: State, forget: set<nat>, e: nat)
    requires LogInv(s) && e != LC_FREE && e in NewLabels(s.al)
    ensures e in NextTable(s, forget)
  {
    var i :| 0 <= i < |s.al.slots| && NewLabels(s.al)[i] == e;
    assert NextTable(s, forget)[i] == e;
  }

  /** The new log block drops no extent that still has a mark only in core. */
  lemma BlockKeeps(s: State, forget: set<nat>, t: State)
    requires Inv(s) && Kept(s, WriteBlock(forget)) && Step(s, WriteBlock(forget), t)
    ensures Inv(t)
  {
    hide PageOf, MarksPage, Count, Cache.Valid, NextTable, Labels;
    forall a | a in t.core && Extent(a) !in t.table ensures a in s.disk {
      if Extent(a) in NewLabels(s.al) {
        AnnouncedStay(s, forget, Extent(a));
      }
      if Extent(a) in Labels(s.al) {
        DroppedIsTested(s, forget, t, a);
      }
    }
    forall i | 0 <= i < |s.al.slots| && NewLabels(s.al)[i] != LC_FREE ensures t.table[i] == NewLabels(s.al)[i] {
      NextTableAt(s, forget, i);
    }
  }

  lemma NextTableAt(s: State, forget: set<nat>, i: nat)
    requires i < |s.al.slots| <= |s.table| && s.al.slots[i].newNumber != LC_FREE
    ensures NextTable(s, forget)[i] == s.al.slots[i].newNumber
  {
  }

  /** A block loses no mark exactly if those it could drop unseen are on disk. */
  lemma BlockExact(s: State, forget: set<nat>, t: State)
    requires Inv(s) && Step(s, WriteBlock(forget), t)
    ensures t.Safe() <==> Kept(s, WriteBlock(forget))
  {
    if Kept(s, WriteBlock(forget)) {
      hide *;
      BlockKeeps(s, forget, t);
      InvIsSafe(t);
    } else {
      var a :| a in s.core && Extent(a) !in NextTable(s, forget) && a !in s.disk;
      assert !t.Survives(a);
    }
  }

  /** Nor does writing an old copy of a page, exactly if the log lists what it takes off the disk. */
  lemma TransferExact(s: State, a: Addr, fromSnapshot: bool, t: State)
    requires Inv(s) && Step(s, Transfer(a, fromSnapshot), t)
    ensures t.Safe() <==> Kept(s, Transfer(a, fromSnapshot))
  {
    if Kept(s, Transfer(a, fromSnapshot)) {
      hide *;
      TransferKeeps(s, a, fromSnapshot, t);
      InvIsSafe(t);
    } else {
      assert a in t.core && !t.Survives(a);
    }
  }

  lemma InvIsSafe(s: State)
    requires Inv(s)
    ensures s.Safe()
  {
  }

  lemma StepKeeps(s: State, act: Action, t: State)
    requires Inv(s) && Step(s, act, t) && Kept(s, act)
    ensures Inv(t)
  {
    hide Inv, Kept;
    match act
    case Get(enr, mayChange, unc, victim) => GetKeeps(s, enr, mayChange, unc, victim, t);
    case Put(i) => PutKeeps(s, i, t);
    case SetBit(a) => SetKeeps(s, a, t);
    case ClearBit(a) => ClearKeeps(s, a, t);
    case StartWrite(page) => StartKeeps(s, page, t);
    case Transfer(a, fromSnapshot) => TransferKeeps(s, a, fromSnapshot, t);
    case Finish(page) => FinishKeeps(s, page, t);
    case Lock => LockKeeps(s, t);
    case Hint => HintKeeps(s, t);
    case TestPage(page) => TestKeeps(s, page, t);
    case WriteBlock(forget) => BlockKeeps(s, forget, t);
    case Commit => CommitKeeps(s, t);
    case BeginShrink => LockKeeps(s, t);
    case FreeSlot(i) => FreeKeeps(s, i, t);
    case EndShrink => LockKeeps(s, t);
    case Replace(n) => ReplaceKeeps(s, n, t);
  }

  lemma StepExact(s: State, act: Action, t: State)
    requires Inv(s) && Step(s, act, t)
    ensures t.Safe() <==> Kept(s, act)
  {
    hide *;
    if act.WriteBlock? {
      BlockExact(s, act.forget, t);
    } else if act.Transfer? {
      TransferExact(s, act.a, act.fromSnapshot, t);
    } else {
      OthersKept(s, act);
      StepKeeps(s, act, t);
      InvIsSafe(t);
    }
  }

  lemma OthersKept(s: State, act: Action)
    requires !act.WriteBlock? && !act.Transfer?
    ensures Kept(s, act)
  {
  }

  // ---- whole runs

  /** Nothing in progress, and every mark on disk. The log may list more than the log in memory. */
  ghost predicate Init(s: State) {
    && 1 <= s.peers <= MAX_PEERS && LogInv(s) && s.phase.Idle? && s.flight == map[]
    && s.core <= s.disk && forall a :: a in s.core ==> s.Inside(a) && Extent(a) != LC_FREE
  }

  ghost predicate Run(trace: seq<State>, acts: seq<Action>) {
    && |trace| == |acts| + 1 && Init(trace[0])
    && forall i :: 0 <= i < |acts| ==> Step(trace[i], acts[i], trace[i + 1])
  }

  ghost predicate AllKept(trace: seq<State>, acts: seq<Action>, n: nat)
    requires n <= |acts| < |trace|
  {
    forall i :: 0 <= i < n ==> Kept(trace[i], acts[i])
  }

  lemma InitIsInv(s: State)
    requires Init(s)
    ensures Inv(s) && Tight(s)
  {
    hide PageOf;
  }

  lemma {:induction false} RunKeeps(trace: seq<State>, acts: seq<Action>, n: nat)
    requires Run(trace, acts) && n < |trace| && AllKept(trace, acts, n)
    ensures Inv(trace[n]) && trace[n].Safe()
  {
    hide Step, Kept, Inv, Init, State.Safe;
    if n == 0 {
      InitIsInv(trace[0]);
    } else {
      RunKeeps(trace, acts, n - 1);
      StepKeeps(trace[n - 1], acts[n - 1], trace[n - 1 + 1]);
    }
    InvIsSafe(trace[n]);
  }

  /** A run is safe to crash in all its states exactly if every step is kept. */
  lemma {:induction false} SafeExactly(trace: seq<State>, acts: seq<Action>, n: nat)
    requires Run(trace, acts) && n < |trace|
    ensures (forall i :: 0 <= i <= n ==> trace[i].Safe()) <==> AllKept(trace, acts, n)
  {
    hide Step, Init, Kept, Inv, State.Safe;
    if AllKept(trace, acts, n) {
      forall i | 0 <= i <= n ensures trace[i].Safe() {
        RunKeeps(trace, acts, i);
      }
    } else {
      var i := FirstNotKept(trace, acts, n);
      RunKeeps(trace, acts, i);
      StepExact(trace[i], acts[i], trace[i + 1]);
    }
  }

  lemma {:induction false} FirstNotKept(trace: seq<State>, acts: seq<Action>, n: nat) returns (i: nat)
    requires n <= |acts| < |trace| && !AllKept(trace, acts, n)
    ensures i < n && !Kept(trace[i], acts[i]) && AllKept(trace, acts, i)
  {
    hide Kept;
    if AllKept(trace, acts, n - 1) {
      i := n - 1;
    } else {
      i := FirstNotKept(trace, acts, n - 1);
    }
  }

  // ---- guards that are enough

  /**
   * The guards at hand when a step is taken: a block waits for the writes passed over, and a slot is freed only when
   * the marks of its extent are settled.
   */
  ghost predicate Guarded(s: State, act: Action) {
    (act.WriteBlock? ==> Drained(s)) && (act.FreeSlot? ==> Settled(s, act.slot))
  }

  lemma SameLabelsTight(s: State, t: State)
    requires Tight(s) && CoreLabels(t) == CoreLabels(s) && t.core <= s.core && t.disk == s.disk && t.peers == s.peers
    requires forall p :: p in t.flight ==>
               (p in s.flight && t.flight[p].snapshot == s.flight[p].snapshot) || t.core <= t.flight[p].snapshot
    ensures Tight(t)
  {
    hide PageOf, CoreLabels;
  }

  lemma LogStepTight(s: State, act: Action, t: State)
    requires Inv(s) && Tight(s) && Step(s, act, t)
    requires act.Get? || act.Put? || act.Lock? || act.Hint? || act.Commit? || act.BeginShrink? || act.EndShrink?
    ensures Tight(t)
  {
    hide PageOf, MarksPage, Count, Cache.Valid, Cache.Find, Hints;
    assert CoreLabels(t) == CoreLabels(s);
    SameLabelsTight(s, t);
  }

  lemma PageStepTight(s: State, act: Action, t: State)
    requires Inv(s) && Tight(s) && Step(s, act, t)
    requires act.ClearBit? || act.StartWrite? || act.Finish? || act.TestPage?
    ensures Tight(t)
  {
    hide PageOf, MarksPage, Count, Cache.Valid, Labels, NewLabels;
    SameLabelsTight(s, t);
  }

  lemma SetTight(s: State, a: Addr, t: State)
    requires Inv(s) && Tight(s) && Step(s, SetBit(a), t)
    ensures Tight(t)
  {
    hide PageOf, MarksPage, Count, Cache.Valid;
    var i :| 0 <= i < |s.al.slots| && s.al.slots[i].number == s.al.slots[i].newNumber == Extent(a)
             && s.al.slots[i].refcnt > 0;
    assert CoreLabels(s)[i] == Extent(a);
  }

  lemma TransferTight(s: State, a: Addr, fromSnapshot: bool, t: State)
    requires Inv(s) && Tight(s) && Step(s, Transfer(a, fromSnapshot), t)
    ensures Tight(t) && Kept(s, Transfer(a, fromSnapshot))
  {
    hide PageOf, MarksPage, Count, Cache.Valid, Labels, NewLabels;
    if a in s.core && Extent(a) in CoreLabels(s) {
      var i :| 0 <= i < |CoreLabels(s)| && CoreLabels(s)[i] == Extent(a);
      assert s.table[i] == Extent(a);
    }
  }

  lemma BlockTight(s: State, forget: set<nat>, t: State)
    requires Inv(s) && Tight(s) && Step(s, WriteBlock(forget), t) && Drained(s)
    ensures Tight(t) && Kept(s, WriteBlock(forget))
  {
    hide PageOf, MarksPage, Count, Cache.Valid, NextTable, Labels, NewLabels;
    forall a | a in s.core && Extent(a) !in NewLabels(s.al)
      ensures a in s.disk && (s.Page(a) in s.flight ==> a in s.flight[s.Page(a)].snapshot)
    {
      if Extent(a) in Labels(s.al) {
        DroppedIsTested(s, forget, t, a);
      }
    }
    forall a | a in s.core && Extent(a) in NewLabels(s.al) ensures Extent(a) in NextTable(s, forget) {
      AnnouncedStay(s, forget, Extent(a));
    }
  }

  lemma FreeTight(s: State, i: nat, t: State)
    requires Inv(s) && Tight(s) && Step(s, FreeSlot(i), t) && Settled(s, i)
    ensures Tight(t)
  {
    hide PageOf, MarksPage, Count, Cache.Valid;
    forall a | a in s.core && Extent(a) in Labels(s.al) && Extent(a) != s.al.slots[i].number
      ensures Extent(a) in Labels(t.al)
    {
      var j :| 0 <= j < |s.al.slots| && Labels(s.al)[j] == Extent(a);
      assert Labels(t.al)[j] == Extent(a);
    }
  }

  lemma ReplaceTight(s: State, n: nat, t: State)
    requires Inv(s) && Tight(s) && Step(s, Replace(n), t)
    ensures Tight(t)
  {
    hide PageOf, MarksPage, Count;
    forall a | a in s.core ensures Extent(a) !in Labels(s.al) {
    }
  }

  /** Under the guards every mark outside the log in memory stays settled. */
  lemma TightKeeps(s: State, act: Action, t: State)
    requires Inv(s) && Tight(s) && Step(s, act, t) && Guarded(s, act)
    ensures Tight(t) && Kept(s, act)
  {
    hide Inv, Tight, Kept, Step, Drained, Settled;
    if !act.WriteBlock? && !act.Transfer? {
      OthersKept(s, act);
    }
    match act
    case SetBit(a) => SetTight(s, a, t);
    case Transfer(a, fromSnapshot) => TransferTight(s, a, fromSnapshot, t);
    case WriteBlock(forget) => BlockTight(s, forget, t);
    case FreeSlot(i) => FreeTight(s, i, t);
    case Replace(n) => ReplaceTight(s, n, t);
    case ClearBit(_) => PageStepTight(s, act, t);
    case StartWrite(_) => PageStepTight(s, act, t);
    case Finish(_) => PageStepTight(s, act, t);
    case TestPage(_) => PageStepTight(s, act, t);
    case _ => LogStepTight(s, act, t);
  }

  ghost predicate AllGuarded(trace: seq<State>, acts: seq<Action>, n: nat)
    requires n <= |acts| < |trace|
  {
    forall i :: 0 <= i < n ==> Guarded(trace[i], acts[i])
  }

  /** In every state of every run that keeps to the guards, a crash loses no out-of-sync mark. */
  lemma {:induction false} NoMarkIsLost(trace: seq<State>, acts: seq<Action>, n: nat)
    requires Run(trace, acts) && n < |trace| && AllGuarded(trace, acts, n)
    ensures Inv(trace[n]) && Tight(trace[n]) && trace[n].Safe() && AllKept(trace, acts, n)
  {
    hide Step, Inv, Tight, Kept, Init, Guarded, State.Safe;
    if n == 0 {
      InitIsInv(trace[0]);
    } else {
      NoMarkIsLost(trace, acts, n - 1);
      TightKeeps(trace[n - 1], acts[n - 1], trace[n - 1 + 1]);
      StepKeeps(trace[n - 1], acts[n - 1], trace[n - 1 + 1]);
    }
    InvIsSafe(trace[n]);
  }

  /** No unchanged page is tested while it is being written. */
  ghost predicate NoneSkipped(trace: seq<State>, acts: seq<Action>, n: nat)
    requires n <= |acts| < |trace|
  {
    forall i :: 0 <= i < n && acts[i].TestPage? && acts[i].page !in trace[i].dirty ==> acts[i].page !in trace[i].flight
  }

  /** Then every block meets its guard. */
  lemma {:induction false} NoSkipNoLoss(trace: seq<State>, acts: seq<Action>, n: nat)
    requires Run(trace, acts) && n < |trace| && NoneSkipped(trace, acts, n)
    ensures trace[n].phase.Writing? ==> trace[n].phase.skipped == {}
    ensures forall i :: 0 <= i < n && acts[i].WriteBlock? ==> Drained(trace[i])
  {
    hide PageOf, MarksPage, Hints, LogInv;
    if n > 0 {
      NoSkipNoLoss(trace, acts, n - 1);
      assert Step(trace[n - 1], acts[n - 1], trace[n - 1 + 1]);
      assert acts[n - 1].WriteBlock? ==> Drained(trace[n - 1]);
    }
  }
}

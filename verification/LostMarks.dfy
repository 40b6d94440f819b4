/** Runs of the crash-safety machine, from an empty log, that lose a mark. */
module LostMarks {
  import opened Options
  import opened LruCache
  import opened BitmapLayout
  import opened CrashSafety

  const SLOTS := 67

  /** Extents `0..n` are in the log, unreferenced; there is no mark yet. */
  function Filled(n: nat): (s: State)
    requires n <= SLOTS
    ensures |s.al.slots| == SLOTS
  {
    var slots := seq(SLOTS, i => if 0 <= i < n then Slot(i, i, 0) else Slot(LC_FREE, LC_FREE, 0));
    var al := Cache(slots, 0, 0, 64, false, false);
    State(1, 68 * AL_EXTENT_BITS, al, Labels(al), {}, {}, {}, map[], Idle)
  }

  lemma Extend(trace: seq<State>, acts: seq<Action>, act: Action, t: State)
    returns (trace': seq<State>, acts': seq<Action>)
    requires Run(trace, acts) && Step(trace[|acts|], act, t)
    ensures Run(trace', acts') && trace' == trace + [t] && acts' == acts + [act]
  {
    hide Step, Init;
    trace', acts' := trace + [t], acts + [act];
    forall i | 0 <= i < |acts'| ensures Step(trace'[i], acts'[i], trace'[i + 1]) {
      if i < |acts| {
        assert Step(trace[i], acts[i], trace[i + 1]);
      }
    }
  }

  /** Extent `n` has been asked for: its slot changes, and is referenced. */
  function Asked(n: nat): State
    requires n < SLOTS
  {
    var s := Filled(n);
    s.(al := s.al.(slots := s.al.slots[n := Slot(LC_FREE, n, 1)], used := 1, pending := 1))
  }

  /** The states between, up to the commit. */
  function Filling(n: nat, i: nat): State
    requires n < SLOTS
  {
    var s := Asked(n);
    var w := s.(al := s.al.(locked := true), phase := if i == 1 then Locked else Writing({}, {}, {}, {}));
    if i == 0 then s
    else if i <= 2 then w
    else
      var u := w.(table := NextTable(w, {}), phase := Logged);
      if i == 3 then u else u.(al := u.al.Committed().(locked := false), phase := Idle)
  }

  lemma AskStep(n: nat)
    requires n < SLOTS
    ensures Step(Filled(n), Get(n, true, false, n), Filling(n, 0))
  {
    hide Count, PageOf, MarksPage;
    var s := Filled(n);
    assert s.al.Recyclable(n);
    assert s.al.Find(n, true).None?;
  }

  lemma LogSteps(n: nat)
    requires n < SLOTS
    ensures Step(Filling(n, 0), Lock, Filling(n, 1)) && Step(Filling(n, 1), Hint, Filling(n, 2))
    ensures Step(Filling(n, 2), WriteBlock({}), Filling(n, 3)) && Step(Filling(n, 3), Commit, Filling(n, 4))
  {
    hide Count, PageOf, MarksPage, NextTable, Cache.Committed, Cache.Find;
  }

  lemma DropStep(n: nat)
    requires n < SLOTS
    ensures Step(Filling(n, 4), Put(n), Filled(n + 1))
  {
    hide Count, PageOf, MarksPage, Cache.Find;
    var s := Filling(n, 4);
    assert s.al.slots[n] == Slot(n, n, 1);
    assert s.al.Put(n).slots == Filled(n + 1).al.slots;
    assert s.table == Labels(Filled(n + 1).al);
  }

  lemma FillOne(trace: seq<State>, acts: seq<Action>, n: nat) returns (trace': seq<State>, acts': seq<Action>)
    requires Run(trace, acts) && n < SLOTS && trace[|acts|] == Filled(n)
    requires forall i :: 0 <= i < |acts| ==> !acts[i].TestPage?
    ensures Run(trace', acts') && trace'[0] == trace[0] && trace'[|acts'|] == Filled(n + 1)
    ensures forall i :: 0 <= i < |acts'| ==> !acts'[i].TestPage?
  {
    hide Step, Init, Filled, Filling;
    AskStep(n);
    LogSteps(n);
    DropStep(n);
    trace', acts' := Extend(trace, acts, Get(n, true, false, n), Filling(n, 0));
    trace', acts' := Extend(trace', acts', Lock, Filling(n, 1));
    trace', acts' := Extend(trace', acts', Hint, Filling(n, 2));
    trace', acts' := Extend(trace', acts', WriteBlock({}), Filling(n, 3));
    trace', acts' := Extend(trace', acts', Commit, Filling(n, 4));
    trace', acts' := Extend(trace', acts', Put(n), Filled(n + 1));
  }

  lemma {:induction false} Fill(n: nat) returns (trace: seq<State>, acts: seq<Action>)
    requires n <= SLOTS
    ensures Run(trace, acts) && trace[0] == Filled(0) && trace[|acts|] == Filled(n)
    ensures forall i :: 0 <= i < |acts| ==> !acts[i].TestPage?
  {
    hide Step, Init, Filled;
    if n == 0 {
      FreshInit();
      return [Filled(0)], [];
    }
    trace, acts := Fill(n - 1);
    trace, acts := FillOne(trace, acts, n - 1);
  }

  lemma FreshInit()
    ensures Init(Filled(0))
  {
    hide Count;
    CountNone(Filled(0).al.slots, UsedSlot);
    CountNone(Filled(0).al.slots, PendingSlot);
  }

  /**
   * The log is full; slot 0 is asked for, marked in, dropped, and asked for again by extent 67 while page 0 is being
   * written.
   */
  function Evicting(phase: Phase): State {
    var s, a := Filled(SLOTS), Addr(0, 0);
    var al := s.al.(slots := s.al.slots[0 := Slot(0, 67, 1)], used := 1, pending := 1, locked := !phase.Idle?);
    s.(al := al, core := {a}, flight := map[0 := Flight({a}, {})], phase := phase)
  }

  lemma EvictSteps()
    ensures var s0, a := Filled(SLOTS), Addr(0, 0);
      var s1 := s0.(al := s0.al.(slots := s0.al.slots[0 := Slot(0, 0, 1)], used := 1));
      var s2 := s1.(core := {a}, dirty := {0});
      var s3 := s2.(al := s0.al);
      var s4 := s3.(al := Evicting(Idle).al);
      && Step(s0, Get(0, true, false, 0), s1) && Step(s1, SetBit(a), s2) && Step(s2, Put(0), s3)
      && Step(s3, Get(67, true, false, 0), s4) && Step(s4, StartWrite(0), Evicting(Idle))
  {
    hide Count, MarksPage;
    var s0 := Filled(SLOTS);
    assert s0.al.slots[0] == Slot(0, 0, 0) && s0.al.Recyclable(0);
    assert s0.al.Find(0, true) == Some(0) && s0.al.Find(67, true).None?;
    var al1 := s0.al.(slots := s0.al.slots[0 := Slot(0, 0, 1)], used := 1);
    assert al1.slots[0].number == al1.slots[0].newNumber == 0;
    assert al1.Put(0).slots == s0.al.slots;
  }

  lemma OnlyPageZero()
    ensures forall p :: MarksPage(1, 68 * AL_EXTENT_BITS, 0, p) <==> p == 0
  {
  }

  lemma HintSteps()
    ensures Step(Evicting(Idle), Lock, Evicting(Locked))
    ensures Step(Evicting(Locked), Hint, Evicting(Writing({0}, {}, {}, {})))
  {
    hide Count, Cache.Find, MarksPage, PageOf, Labels, NewLabels;
    var al := Evicting(Locked).al;
    OnlyPageZero();
    assert forall i :: 0 <= i < SLOTS ==> (Evicts(al.slots[i]) <==> i == 0);
    assert al.slots[0] == Slot(0, 67, 1);
  }

  /** The page is skipped although its write is not done. */
  lemma SkipSteps()
    ensures var w := Evicting(Writing({0}, {0}, {}, {0}));
      && Step(Evicting(Writing({0}, {}, {}, {})), TestPage(0), w)
      && Step(w, WriteBlock({}), w.(table := NextTable(w, {}), phase := Logged))
  {
    hide Count, Cache.Find, MarksPage, PageOf, Labels, NewLabels;
  }

  /** The block drops extent 0: the mark is neither on disk nor logged. */
  lemma BlockDropsMark()
    ensures var w := Evicting(Writing({0}, {0}, {}, {0})); !w.(table := NextTable(w, {}), phase := Logged).Safe()
  {
    var w := Evicting(Writing({0}, {0}, {}, {0}));
    var u := w.(table := NextTable(w, {}), phase := Logged);
    assert forall i :: 0 <= i < SLOTS ==> NextTable(w, {})[i] != 0;
    assert Addr(0, 0) in u.core && !u.Survives(Addr(0, 0));
  }

  /**
   * From an empty log: extents 0 to 66 fill it, a bit of extent 0 is set, and extent 67 evicts it while page 0 is
   * written.
   */
  lemma EarlySkipLosesMark() returns (trace: seq<State>, acts: seq<Action>)
    ensures Run(trace, acts) && trace[0] == Filled(0) && !trace[|acts|].Safe()
  {
    hide Step, Init, Filled, Evicting, State.Safe;
    EvictSteps();
    HintSteps();
    SkipSteps();
    BlockDropsMark();
    var s0, a := Filled(SLOTS), Addr(0, 0);
    var s1 := s0.(al := s0.al.(slots := s0.al.slots[0 := Slot(0, 0, 1)], used := 1));
    var s2 := s1.(core := {a}, dirty := {0});
    var s3 := s2.(al := s0.al);
    var w := Evicting(Writing({0}, {0}, {}, {0}));
    trace, acts := Fill(SLOTS);
    trace, acts := Extend(trace, acts, Get(0, true, false, 0), s1);
    trace, acts := Extend(trace, acts, SetBit(a), s2);
    trace, acts := Extend(trace, acts, Put(0), s3);
    trace, acts := Extend(trace, acts, Get(67, true, false, 0), s3.(al := Evicting(Idle).al));
    trace, acts := Extend(trace, acts, StartWrite(0), Evicting(Idle));
    trace, acts := Extend(trace, acts, Lock, Evicting(Locked));
    trace, acts := Extend(trace, acts, Hint, Evicting(Writing({0}, {}, {}, {})));
    trace, acts := Extend(trace, acts, TestPage(0), w);
    trace, acts := Extend(trace, acts, WriteBlock({}), w.(table := NextTable(w, {}), phase := Logged));
  }

  /** Extent 0 has a mark that is only in memory; its slot is then freed. */
  function Shrunk(phase: Phase): State {
    Filled(0).(table := Filled(1).table, core := {Addr(0, 0)}, dirty := {0}, phase := phase,
               al := Filled(0).al.(locked := !phase.Idle?))
  }

  lemma MarkSteps()
    ensures var s0, a := Filled(1), Addr(0, 0);
      var s1 := s0.(al := s0.al.(slots := s0.al.slots[0 := Slot(0, 0, 1)], used := 1));
      var s2 := s1.(core := {a}, dirty := {0});
      Step(s0, Get(0, true, false, 1), s1) && Step(s1, SetBit(a), s2) && Step(s2, Put(0), Marked(false))
  {
    hide Count, MarksPage;
    var s0 := Filled(1);
    assert s0.al.slots[0] == Slot(0, 0, 0) && s0.al.Recyclable(1);
    assert s0.al.Find(0, true) == Some(0);
    var al1 := s0.al.(slots := s0.al.slots[0 := Slot(0, 0, 1)], used := 1);
    assert al1.slots[0].number == al1.slots[0].newNumber == 0;
    assert al1.Put(0).slots == s0.al.slots;
  }

  /** Extent 0 is in the log with its mark; `locked` for shrinking, or not yet. */
  function Marked(locked: bool): State {
    var s := Filled(1);
    s.(core := {Addr(0, 0)}, dirty := {0}, al := s.al.(locked := locked), phase := if locked then Shrinking else Idle)
  }

  lemma ShrinkSteps()
    ensures Step(Marked(false), BeginShrink, Marked(true)) && Step(Shrunk(Shrinking), EndShrink, Shrunk(Idle))
  {
    hide Count, MarksPage, PageOf, Cache.Find, Labels;
  }

  lemma FreeStep()
    ensures Step(Marked(true), FreeSlot(0), Shrunk(Shrinking))
  {
    hide Count, MarksPage, PageOf, Cache.Find, Labels;
    assert Filled(1).al.Deleted(0).slots == Filled(0).al.slots;
  }

  /** Extent 1 takes the freed slot: nothing is evicted, so nothing is hinted. */
  function Reused(phase: Phase): State {
    var s := Shrunk(phase);
    s.(al := s.al.(slots := s.al.slots[0 := Slot(LC_FREE, 1, 1)], used := 1, pending := 1))
  }

  lemma ReuseStep()
    ensures Step(Shrunk(Idle), Get(1, true, false, 0), Reused(Idle))
  {
    hide Count, MarksPage, PageOf;
    var s := Shrunk(Idle);
    assert s.al.Recyclable(0) && s.al.Find(1, true).None?;
  }

  lemma ReuseLogged()
    ensures var w := Reused(Writing({}, {}, {}, {}));
      && Step(Reused(Idle), Lock, Reused(Locked)) && Step(Reused(Locked), Hint, w)
      && Step(w, WriteBlock({}), w.(table := NextTable(w, {}), phase := Logged))
  {
    hide Count, MarksPage, PageOf, Cache.Find, NextTable;
    assert forall i :: 0 <= i < SLOTS ==> !Evicts(Reused(Locked).al.slots[i]);
  }

  lemma ReuseDropsMark()
    ensures var w := Reused(Writing({}, {}, {}, {})); !w.(table := NextTable(w, {}), phase := Logged).Safe()
  {
    var w := Reused(Writing({}, {}, {}, {}));
    var u := w.(table := NextTable(w, {}), phase := Logged);
    assert forall i :: 0 <= i < SLOTS ==> NextTable(w, {})[i] != 0;
    assert Addr(0, 0) in u.core && !u.Survives(Addr(0, 0));
  }

  /**
   * Freeing a slot whose extent has a mark only in memory loses it with the next block, although no page was skipped.
   */
  lemma ShrinkLosesMark() returns (trace: seq<State>, acts: seq<Action>)
    ensures Run(trace, acts) && trace[0] == Filled(0) && NoneSkipped(trace, acts, |acts|) && !trace[|acts|].Safe()
  {
    hide Step, Init, Filled, Shrunk, Reused, Marked, State.Safe, NextTable;
    MarkSteps();
    ShrinkSteps();
    FreeStep();
    ReuseStep();
    ReuseLogged();
    ReuseDropsMark();
    var s0, a := Filled(1), Addr(0, 0);
    var s1 := s0.(al := s0.al.(slots := s0.al.slots[0 := Slot(0, 0, 1)], used := 1));
    var w := Reused(Writing({}, {}, {}, {}));
    trace, acts := Fill(1);
    trace, acts := Extend(trace, acts, Get(0, true, false, 1), s1);
    trace, acts := Extend(trace, acts, SetBit(a), s1.(core := {a}, dirty := {0}));
    trace, acts := Extend(trace, acts, Put(0), Marked(false));
    trace, acts := Extend(trace, acts, BeginShrink, Marked(true));
    trace, acts := Extend(trace, acts, FreeSlot(0), Shrunk(Shrinking));
    trace, acts := Extend(trace, acts, EndShrink, Shrunk(Idle));
    trace, acts := Extend(trace, acts, Get(1, true, false, 0), Reused(Idle));
    trace, acts := Extend(trace, acts, Lock, Reused(Locked));
    trace, acts := Extend(trace, acts, Hint, w);
    trace, acts := Extend(trace, acts, WriteBlock({}), w.(table := NextTable(w, {}), phase := Logged));
  }
}

/**
 * The multi-producer, single-consumer index ring of the log buffer. Producers interleave between the reads and the
 * compare-and-swap of `idx_ring_acquire`; the consumer between its reads, the flag test and the two writes of dispose.
 */
module IndexRing {
  import opened Arithmetic
  import opened Options

  /** A producer inside `idx_ring_acquire`, or between it and `idx_ring_commit`. `head`, `tail` and `ticket` are the
      unbounded counts behind the values read. */
  datatype Producer =
    | Outside
    | ReadHead(acquired: nat, head: nat)
    | ReadTail(acquired: nat, disposed: nat, head: nat, tail: nat)
    | Holding(slot: nat, ticket: nat)
    | Filled(slot: nat, ticket: nat, msg: nat)

  datatype Consumer =
    | Looking
    | SawHead(acquired: nat, head: nat)
    | Waiting(slot: nat, ticket: nat)
    | Written(slot: nat, ticket: nat)
    | Cleared(slot: nat, ticket: nat)

  /** `heads`, `tails` and `drops` count acquired, consumed and disposed slots; `sent` is the message committed under
      each ticket, `visited` what the consumer has written out. */
  datatype State = State(max: nat, acquired: nat, consumed: nat, disposed: nat, flags: seq<bool>, data: seq<nat>,
                         producers: map<nat, Producer>, consumer: Consumer,
                         heads: nat, tails: nat, drops: nat, sent: map<nat, nat>, visited: seq<nat>)

  datatype Action =
    | LoadHead(p: nat)
    | LoadTail(p: nat)
    | GiveUp(p: nat)
    | Swap(p: nat)
    | Fill(p: nat, msg: nat)
    | Commit(p: nat)
    | Look
    | Consume
    | Write
    | Clear
    | Dispose

  /** The branches of `idx_ring_acquire` with a live consumer: the value to swap in, or no room. */
  function Target(acquired: nat, disposed: nat, max: nat): Option<nat>
    requires max > 0
  {
    var next := acquired + 1;
    if acquired < disposed then
      if next < disposed then Some(next) else None
    else if next >= max then
      if disposed != 0 then Some(next % max) else None
    else Some(next)
  }

  /** There is room unless the next slot is the oldest one in use. */
  lemma TargetIs(acquired: nat, disposed: nat, max: nat)
    requires acquired < max && disposed < max
    ensures Target(acquired, disposed, max)
         == if (acquired + 1) % max == disposed then None else Some((acquired + 1) % max)
  {
    if acquired + 1 < max {
      Quotient(acquired + 1, 0, max);
    } else {
      Quotient(0, 1, max);
    }
  }

  // ---- one step

  /** The compare-and-swap of `idx_ring_acquire`; it compares slots, not tickets. */
  ghost predicate Swapped(s: State, p: nat, t: State)
    requires s.max > 0
  {
    && p in s.producers && s.producers[p].ReadTail?
    && var r := s.producers[p];
       && Target(r.acquired, r.disposed, s.max).Some?
       && if s.acquired == r.acquired then
            t == s.(acquired := Target(r.acquired, r.disposed, s.max).value, heads := s.heads + 1,
                    producers := s.producers[p := Holding(r.acquired, s.heads)])
          else
            t == s.(producers := s.producers[p := Outside])
  }

  ghost predicate Step(s: State, act: Action, t: State) {
    && s.max > 0 && |s.flags| == |s.data| == s.max
    && match act
       case LoadHead(p) =>
         && p in s.producers && s.producers[p].Outside?
         && t == s.(producers := s.producers[p := ReadHead(s.acquired, s.heads)])
       case LoadTail(p) =>
         && p in s.producers && s.producers[p].ReadHead?
         && t == s.(producers := s.producers[p :=
                      ReadTail(s.producers[p].acquired, s.disposed, s.producers[p].head, s.drops)])
       case GiveUp(p) =>
         // no room, or the hysteresis after an overflow: the message is dropped
         && p in s.producers && s.producers[p].ReadTail?
         && t == s.(producers := s.producers[p := Outside])
       case Swap(p) =>
         // less than one lap since the head was read
         && Swapped(s, p, t) && s.heads < s.producers[p].head + s.max
       case Fill(p, msg) =>
         && p in s.producers && s.producers[p].Holding? && s.producers[p].slot < s.max
         && t == s.(data := s.data[s.producers[p].slot := msg],
                    producers := s.producers[p := Filled(s.producers[p].slot, s.producers[p].ticket, msg)])
       case Commit(p) =>
         && p in s.producers && s.producers[p].Filled? && s.producers[p].slot < s.max
         && t == s.(flags := s.flags[s.producers[p].slot := true], producers := s.producers[p := Outside],
                    sent := s.sent[s.producers[p].ticket := s.producers[p].msg])
       case Look =>
         && s.consumer.Looking?
         && t == s.(consumer := SawHead(s.acquired, s.heads))
       case Consume =>
         && s.consumer.SawHead?
         && if s.consumer.acquired == s.consumed then t == s.(consumer := Looking)
            else t == s.(consumed := (s.consumed + 1) % s.max, tails := s.tails + 1,
                         consumer := Waiting(s.consumed, s.tails))
       case Write =>
         && s.consumer.Waiting? && s.consumer.slot < s.max && s.flags[s.consumer.slot]
         && t == s.(visited := s.visited + [s.data[s.consumer.slot]],
                    consumer := Written(s.consumer.slot, s.consumer.ticket))
       case Clear =>
         && s.consumer.Written? && s.consumer.slot < s.max
         && if s.acquired == s.disposed then t == s.(consumer := Looking)
            else t == s.(flags := s.flags[s.consumer.slot := false],
                         consumer := Cleared(s.consumer.slot, s.consumer.ticket))
       case Dispose =>
         && s.consumer.Cleared?
         && t == s.(disposed := (s.disposed + 1) % s.max, drops := s.drops + 1, consumer := Looking)
  }

  // ---- what every step keeps

  /** The slot of a ticket. */
  function Slot(t: nat, max: nat): nat {
    if max == 0 then 0 else t % max
  }

  predicate Flag(flags: seq<bool>, slot: nat) {
    slot < |flags| && flags[slot]
  }

  function Data(data: seq<nat>, slot: nat): nat {
    if slot < |data| then data[slot] else 0
  }

  ghost predicate Counters(s: State) {
    && s.max > 0 && |s.flags| == |s.data| == s.max
    && s.acquired == Slot(s.heads, s.max) && s.consumed == Slot(s.tails, s.max) && s.disposed == Slot(s.drops, s.max)
    && s.drops <= s.tails <= s.heads < s.drops + s.max
  }

  predicate Busy(c: Consumer) {
    c.Waiting? || c.Written? || c.Cleared?
  }

  /** The consumer works on the oldest slot in use, or on none. */
  ghost predicate ConsumerOk(s: State) {
    && (Busy(s.consumer) ==>
          s.tails == s.drops + 1 && s.consumer.ticket == s.drops && s.consumer.slot == Slot(s.drops, s.max))
    && (!Busy(s.consumer) ==> s.tails == s.drops)
    && (s.consumer.SawHead? ==>
          s.consumer.acquired == Slot(s.consumer.head, s.max) && s.tails <= s.consumer.head <= s.heads)
    && |s.visited| == (if s.consumer.Written? || s.consumer.Cleared? then s.drops + 1 else s.drops)
  }

  predicate Sent(sent: map<nat, nat>, ticket: nat) {
    ticket in sent
  }

  predicate Holds(p: Producer) {
    p.Holding? || p.Filled?
  }

  ghost predicate ProducerOk(s: State, p: Producer) {
    && (p.ReadHead? ==> p.acquired == Slot(p.head, s.max) && p.head <= s.heads)
    && (p.ReadTail? ==>
          && p.acquired == Slot(p.head, s.max) && p.disposed == Slot(p.tail, s.max) && p.head <= s.heads
          && p.tail <= s.drops && (p.head == s.heads ==> p.tail <= p.head < p.tail + s.max))
    && (Holds(p) ==> s.drops <= p.ticket < s.heads && p.slot == Slot(p.ticket, s.max) && !Sent(s.sent, p.ticket))
    && (p.Filled? ==> Data(s.data, p.slot) == p.msg)
  }

  /** No two producers hold the same ticket. */
  ghost predicate ProducersOk(s: State) {
    && (forall p :: p in s.producers ==> ProducerOk(s, s.producers[p]))
    && (forall p, q | p in s.producers && q in s.producers && p != q
                       && Holds(s.producers[p]) && Holds(s.producers[q]) ::
          s.producers[p].ticket != s.producers[q].ticket)
  }

  /** A slot in use is complete exactly when its message was committed, and then holds that message; a slot not in use
      is not complete; what was visited is what was committed, ticket by ticket. */
  ghost predicate SlotsOk(s: State) {
    && (forall t :: t in s.sent ==> t < s.heads)
    && (forall t: nat :: s.drops <= t < s.heads && !(s.consumer.Cleared? && t == s.drops) ==>
          (Flag(s.flags, Slot(t, s.max)) <==> Sent(s.sent, t)))
    && (forall t: nat :: s.drops <= t < s.heads && Sent(s.sent, t) ==> Data(s.data, Slot(t, s.max)) == s.sent[t])
    && (forall t: nat :: s.heads <= t < s.drops + s.max ==> !Flag(s.flags, Slot(t, s.max)))
    && (s.consumer.Cleared? ==> !Flag(s.flags, Slot(s.drops, s.max)))
    && (forall i: nat :: i < |s.visited| ==> Sent(s.sent, i) && s.visited[i] == s.sent[i])
  }

  ghost predicate Inv(s: State) {
    Counters(s) && ConsumerOk(s) && ProducersOk(s) && SlotsOk(s)
  }

  // ---- tickets and slots

  lemma SlotsDiffer(t: nat, u: nat, max: nat)
    requires t < u < t + max
    ensures Slot(t, max) != Slot(u, max)
  {
    var a, r := t / max, t % max;
    DivMod(t, max);
    var d := u - t;
    if r + d < max {
      Quotient(r + d, a, max);
    } else {
      Distribute(a, max);
      Quotient(r + d - max, a + 1, max);
    }
  }

  /** Within one lap, no other ticket has the slot of `t`. */
  lemma OtherSlots(lo: nat, t: nat, max: nat)
    requires lo <= t < lo + max
    ensures forall u: nat :: lo <= u < lo + max && u != t ==> Slot(u, max) != Slot(t, max)
    ensures Slot(t, max) < max
  {
    hide Slot;
    forall u: nat | lo <= u < lo + max && u != t ensures Slot(u, max) != Slot(t, max) {
      SlotsDiffer(if t < u then t else u, if t < u then u else t, max);
    }
    SlotBelow(t, max);
  }

  lemma SlotBelow(t: nat, max: nat)
    requires max > 0
    ensures Slot(t, max) < max
  {
    DivMod(t, max);
  }

  lemma SlotNext(t: nat, max: nat)
    requires max > 0
    ensures Slot(t + 1, max) == (Slot(t, max) + 1) % max
  {
    StepModulo(t, max);
    DivMod(t, max);
    if t % max == max - 1 {
      Quotient(0, 1, max);
    } else {
      Quotient(t % max + 1, 0, max);
    }
  }

  lemma SlotWraps(t: nat, max: nat)
    requires max > 0
    ensures Slot(t + max, max) == Slot(t, max)
  {
    DivMod(t, max);
    Distribute(t / max, max);
    Quotient(t % max, t / max + 1, max);
  }

  // ---- producers

  /** One producer moves on; the others' places stay good. */
  lemma ProducerMoves(s: State, p: nat, now: Producer, t: State)
    requires ProducersOk(s) && p in s.producers && t.producers == s.producers[p := now]
    requires forall q :: q in s.producers && q != p ==> ProducerOk(t, s.producers[q])
    requires ProducerOk(t, now)
    requires Holds(now) ==>
               if Holds(s.producers[p]) then now.ticket == s.producers[p].ticket
               else forall q :: q in s.producers && Holds(s.producers[q]) ==> s.producers[q].ticket != now.ticket
    ensures ProducersOk(t)
  {
    hide ProducerOk;
  }

  lemma LoadKeeps(s: State, p: nat, t: State)
    requires Inv(s) && (Step(s, LoadHead(p), t) || Step(s, GiveUp(p), t))
    ensures Inv(t)
  {
    hide Slot, Target, ProducersOk;
    AllOk(s);
    ProducerMoves(s, p, t.producers[p], t);
  }

  lemma LoadTailKeeps(s: State, p: nat, t: State)
    requires Inv(s) && Step(s, LoadTail(p), t)
    ensures Inv(t)
  {
    hide Slot, Target, ProducersOk;
    AllOk(s);
    ProducerMoves(s, p, t.producers[p], t);
  }

  lemma AllOk(s: State)
    requires ProducersOk(s)
    ensures forall q :: q in s.producers ==> ProducerOk(s, s.producers[q])
  {
    hide ProducerOk;
  }

  lemma RoomToSwap(s: State, r: Producer)
    requires Inv(s) && r.ReadTail? && ProducerOk(s, r)
    requires Target(r.acquired, r.disposed, s.max).Some? && s.heads < r.head + s.max && s.acquired == r.acquired
    ensures r.head == s.heads && s.heads + 1 < s.drops + s.max
    ensures Target(r.acquired, r.disposed, s.max).value == Slot(s.heads + 1, s.max)
  {
    hide Slot, Target;
    SlotBelow(r.head, s.max);
    SlotBelow(r.tail, s.max);
    TargetIs(r.acquired, r.disposed, s.max);
    if r.head < s.heads {
      SlotsDiffer(r.head, s.heads, s.max);
    }
    SlotNext(s.heads, s.max);
    if s.heads + 1 == r.tail + s.max {
      SlotWraps(r.tail, s.max);
    }
  }

  lemma SwapWithRoom(s: State, p: nat, t: State)
    requires Inv(s) && Swapped(s, p, t)
    requires s.acquired == s.producers[p].acquired ==> s.heads + 1 < s.drops + s.max
    ensures Inv(t)
  {
    hide Slot, Target, ProducersOk;
    AllOk(s);
    var r := s.producers[p];
    SlotBelow(r.head, s.max);
    SlotBelow(r.tail, s.max);
    TargetIs(r.acquired, r.disposed, s.max);
    SlotNext(s.heads, s.max);
    ProducerMoves(s, p, t.producers[p], t);
  }

  /** Slot `slot` belongs to no ticket in use, holds no committed message, and no producer or consumer has it. */
  ghost predicate Unused(s: State, slot: nat) {
    && slot < s.max && !Flag(s.flags, slot)
    && (forall u: nat :: s.drops <= u < s.heads ==> Slot(u, s.max) != slot)
    && (forall q :: q in s.producers && Holds(s.producers[q]) ==> s.producers[q].slot != slot)
    && (Busy(s.consumer) ==> s.consumer.slot != slot)
  }

  lemma HeadUnused(s: State)
    requires Inv(s)
    ensures Unused(s, s.acquired)
  {
    hide Slot, ProducersOk;
    AllOk(s);
    OtherSlots(s.drops, s.heads, s.max);
  }

  /** A successful swap hands out a slot that nobody uses. */
  lemma SwapKeeps(s: State, p: nat, t: State)
    requires Inv(s) && Step(s, Swap(p), t)
    ensures Inv(t)
    ensures s.acquired == s.producers[p].acquired ==>
              && t.producers[p].Holding? && t.producers[p].ticket == s.heads && Unused(s, t.producers[p].slot)
  {
    hide Slot, Target, ConsumerOk, SlotsOk, Unused;
    if s.acquired == s.producers[p].acquired {
      RoomToSwap(s, s.producers[p]);
      HeadUnused(s);
    }
    SwapWithRoom(s, p, t);
  }

  /** However stale the head, a successful swap keeps the ring good exactly when a slot is really left. */
  lemma StaleSwap(s: State, p: nat, t: State)
    requires Inv(s) && Swapped(s, p, t) && s.acquired == s.producers[p].acquired
    ensures Inv(t) <==> s.heads + 1 < s.drops + s.max
  {
    hide Slot, Target, ConsumerOk, SlotsOk, ProducersOk;
    if s.heads + 1 < s.drops + s.max {
      SwapWithRoom(s, p, t);
    }
  }

  lemma OthersElsewhere(s: State, p: nat, q: nat)
    requires Inv(s) && p in s.producers && q in s.producers && q != p && Holds(s.producers[p]) && Holds(s.producers[q])
    ensures s.producers[q].slot != s.producers[p].slot && s.producers[q].ticket != s.producers[p].ticket
  {
    hide Slot, ConsumerOk, SlotsOk;
    assert ProducerOk(s, s.producers[p]) && ProducerOk(s, s.producers[q]);
    OtherSlots(s.drops, s.producers[p].ticket, s.max);
  }

  lemma FillKeeps(s: State, p: nat, msg: nat, t: State)
    requires Inv(s) && Step(s, Fill(p, msg), t)
    ensures Inv(t)
  {
    hide Slot, Target, ProducersOk;
    AllOk(s);
    OtherSlots(s.drops, s.producers[p].ticket, s.max);
    forall q | q in s.producers && q != p ensures ProducerOk(t, s.producers[q]) {
      if Holds(s.producers[q]) {
        OthersElsewhere(s, p, q);
      }
    }
    ProducerMoves(s, p, t.producers[p], t);
  }

  lemma CommitSlots(s: State, p: nat, t: State)
    requires Inv(s) && Step(s, Commit(p), t)
    ensures SlotsOk(t)
  {
    hide Slot, Target, ProducersOk;
    AllOk(s);
    OtherSlots(s.drops, s.producers[p].ticket, s.max);
  }

  lemma CommitKeeps(s: State, p: nat, t: State)
    requires Inv(s) && Step(s, Commit(p), t)
    ensures Inv(t)
  {
    hide Slot, Target, ProducersOk, SlotsOk;
    AllOk(s);
    CommitSlots(s, p, t);
    forall q | q in s.producers && q != p ensures ProducerOk(t, s.producers[q]) {
      if Holds(s.producers[q]) {
        OthersElsewhere(s, p, q);
      }
    }
    ProducerMoves(s, p, t.producers[p], t);
  }

  // ---- the consumer

  lemma LookKeeps(s: State, t: State)
    requires Inv(s) && Step(s, Look, t)
    ensures Inv(t)
  {
    hide Slot, Target;
  }

  lemma ConsumeKeeps(s: State, t: State)
    requires Inv(s) && Step(s, Consume, t)
    ensures Inv(t)
  {
    hide Slot, Target;
    SlotNext(s.tails, s.max);
  }

  lemma WriteKeeps(s: State, t: State)
    requires Inv(s) && Step(s, Write, t)
    ensures Inv(t)
    ensures Sent(s.sent, s.drops) && t.visited == s.visited + [s.sent[s.drops]]
  {
    hide Slot, Target;
  }

  lemma ClearKeeps(s: State, t: State)
    requires Inv(s) && Step(s, Clear, t)
    ensures Inv(t) && t.consumer.Cleared?
  {
    hide Slot, Target;
    OtherSlots(s.drops, s.drops, s.max);
  }

  lemma DisposeKeeps(s: State, t: State)
    requires Inv(s) && Step(s, Dispose, t)
    ensures Inv(t)
  {
    hide Slot, Target;
    SlotNext(s.drops, s.max);
    SlotWraps(s.drops, s.max);
  }

  lemma StepKeeps(s: State, act: Action, t: State)
    requires Inv(s) && Step(s, act, t)
    ensures Inv(t)
  {
    hide Inv;
    match act
    case LoadHead(p) => LoadKeeps(s, p, t);
    case LoadTail(p) => LoadTailKeeps(s, p, t);
    case GiveUp(p) => LoadKeeps(s, p, t);
    case Swap(p) => SwapKeeps(s, p, t);
    case Fill(p, msg) => FillKeeps(s, p, msg, t);
    case Commit(p) => CommitKeeps(s, p, t);
    case Look => LookKeeps(s, t);
    case Consume => ConsumeKeeps(s, t);
    case Write => WriteKeeps(s, t);
    case Clear => ClearKeeps(s, t);
    case Dispose => DisposeKeeps(s, t);
  }

  // ---- whole runs

  ghost predicate Init(s: State) {
    && s.max > 0 && s.acquired == s.consumed == s.disposed == s.heads == s.tails == s.drops == 0
    && s.flags == seq(s.max, _ => false) && |s.data| == s.max
    && (forall p :: p in s.producers ==> s.producers[p].Outside?)
    && s.consumer.Looking? && s.sent == map[] && s.visited == []
  }

  ghost predicate Run(trace: seq<State>, acts: seq<Action>) {
    && |trace| == |acts| + 1 && Init(trace[0])
    && forall i :: 0 <= i < |acts| ==> Step(trace[i], acts[i], trace[i + 1])
  }

  lemma {:induction false} RunKeeps(trace: seq<State>, acts: seq<Action>, n: nat)
    requires Run(trace, acts) && n < |trace|
    ensures Inv(trace[n])
  {
    if n > 0 {
      hide Step, Inv;
      RunKeeps(trace, acts, n - 1);
      StepKeeps(trace[n - 1], acts[n - 1], trace[n - 1 + 1]);
    } else {
      InitIsOk(trace[0]);
    }
  }

  lemma InitIsOk(s: State)
    requires Init(s)
    ensures Inv(s)
  {
    hide Slot;
    forall t: nat ensures !Flag(s.flags, Slot(t, s.max)) {
    }
    SlotZero(s.max);
  }

  lemma SlotZero(max: nat)
    ensures Slot(0, max) == 0
  {
  }

  /**
   * No two producers ever hold the same slot, none holds the slot the consumer is about to write out, and no other
   * ticket in use shares the slot.
   */
  lemma SlotHeldOnce(trace: seq<State>, acts: seq<Action>, n: nat, p: nat, q: nat)
    requires Run(trace, acts) && n < |trace|
    requires var s := trace[n]; p in s.producers && Holds(s.producers[p])
    ensures var s := trace[n];
      && (q in s.producers && q != p && Holds(s.producers[q]) ==> s.producers[q].slot != s.producers[p].slot)
      && (s.consumer.Written? || s.consumer.Cleared? ==> s.consumer.slot != s.producers[p].slot)
      && forall t: nat :: s.drops <= t < s.heads && t != s.producers[p].ticket ==> Slot(t, s.max) != s.producers[p].slot
  {
    hide Slot, Step;
    RunKeeps(trace, acts, n);
    var s := trace[n];
    assert ProducerOk(s, s.producers[p]);
    if q in s.producers && q != p && Holds(s.producers[q]) {
      OthersElsewhere(s, p, q);
    }
    OtherSlots(s.drops, s.producers[p].ticket, s.max);
    if s.consumer.Written? || s.consumer.Cleared? {
      assert Sent(s.sent, s.drops);
    }
  }

  /** The consumer writes out the committed messages in the order their slots were acquired, each once, and never one
      that is not committed. */
  lemma VisitedInOrder(trace: seq<State>, acts: seq<Action>, n: nat, i: nat)
    requires Run(trace, acts) && n < |trace| && i < |trace[n].visited|
    ensures var s := trace[n]; i < s.heads && i in s.sent && s.visited[i] == s.sent[i]
  {
    hide Slot, Step;
    RunKeeps(trace, acts, n);
    assert Sent(trace[n].sent, i);
  }

  // ---- a swap that comes a lap too late

  lemma Extend(trace: seq<State>, acts: seq<Action>, act: Action, t: State)
    returns (trace': seq<State>, acts': seq<Action>)
    requires Run(trace, acts) && Step(trace[|acts|], act, t)
    ensures Run(trace', acts') && trace'[|acts'|] == t
  {
    hide Step, Init;
    trace', acts' := trace + [t], acts + [act];
    forall i | 0 <= i < |acts'| ensures Step(trace'[i], acts'[i], trace'[i + 1]) {
      if i < |acts| {
        assert Step(trace[i], acts[i], trace[i + 1]);
      }
    }
  }

  /** Three slots; producer 0 has read head and tail. */
  function EarlyReader(): State {
    State(3, 0, 0, 0, [false, false, false], [0, 0, 0], map[0 := ReadTail(0, 0, 0, 0), 1 := Outside, 2 := Outside],
          Looking, 0, 0, 0, map[], [])
  }

  lemma RunToReader() returns (trace: seq<State>, acts: seq<Action>)
    ensures Run(trace, acts) && trace[|acts|] == EarlyReader()
  {
    var s := EarlyReader();
    var s0 := s.(producers := map[0 := Outside, 1 := Outside, 2 := Outside]);
    assert [false, false, false] == seq(3, _ => false);
    trace, acts := [s0], [];
    trace, acts := Extend(trace, acts, LoadHead(0), s0.(producers := s0.producers[0 := ReadHead(0, 0)]));
    trace, acts := Extend(trace, acts, LoadTail(0), s);
  }

  predicate CanAcquire(s: State, p: nat) {
    && p in s.producers && s.producers[p].Outside? && s.max > 0 && |s.flags| == |s.data| == s.max
    && Target(s.acquired, s.disposed, s.max).Some?
  }

  /** Producer `p` has acquired the next slot. */
  function Acquired(s: State, p: nat): State
    requires CanAcquire(s, p)
  {
    s.(acquired := Target(s.acquired, s.disposed, s.max).value, heads := s.heads + 1,
       producers := s.producers[p := Holding(s.acquired, s.heads)])
  }

  lemma RunAcquires(trace: seq<State>, acts: seq<Action>, p: nat) returns (trace': seq<State>, acts': seq<Action>)
    requires Run(trace, acts) && CanAcquire(trace[|acts|], p)
    ensures Run(trace', acts') && trace'[|acts'|] == Acquired(trace[|acts|], p)
  {
    hide Target, Init;
    var s := trace[|acts|];
    var s1 := s.(producers := s.producers[p := ReadHead(s.acquired, s.heads)]);
    var s2 := s.(producers := s.producers[p := ReadTail(s.acquired, s.disposed, s.heads, s.drops)]);
    assert s2 == s1.(producers := s1.producers[p := ReadTail(s.acquired, s.disposed, s.heads, s.drops)]);
    var s3 := Acquired(s, p);
    assert s3.producers == s2.producers[p := Holding(s.acquired, s.heads)];
    trace', acts' := Extend(trace, acts, LoadHead(p), s1);
    trace', acts' := Extend(trace', acts', LoadTail(p), s2);
    trace', acts' := Extend(trace', acts', Swap(p), s3);
  }

  /** Producer 1 has sent message 7 through slot 0, and the consumer has disposed of it. */
  function OneDisposed(): State {
    State(3, 1, 1, 1, [false, false, false], [7, 0, 0], map[0 := ReadTail(0, 0, 0, 0), 1 := Outside, 2 := Outside],
          Looking, 1, 1, 1, map[0 := 7], [7])
  }

  /** The message is committed; the consumer has not looked yet. */
  function OneSent(): State {
    OneDisposed().(consumed := 0, disposed := 0, flags := [true, false, false], tails := 0, drops := 0, visited := [])
  }

  lemma SendSteps()
    ensures CanAcquire(EarlyReader(), 1)
    ensures var s1 := Acquired(EarlyReader(), 1);
      var s2 := s1.(data := [7, 0, 0], producers := s1.producers[1 := Filled(0, 0, 7)]);
      Step(s1, Fill(1, 7), s2) && Step(s2, Commit(1), OneSent())
  {
    var s1 := Acquired(EarlyReader(), 1);
    var s2 := s1.(data := [7, 0, 0], producers := s1.producers[1 := Filled(0, 0, 7)]);
    assert OneSent().producers == s2.producers[1 := Outside] && OneSent().sent == s2.sent[0 := 7];
  }

  lemma ConsumeSteps()
    ensures var s0 := OneSent();
      var s1 := s0.(consumer := SawHead(1, 1));
      var s2 := s0.(consumed := 1, tails := 1, consumer := Waiting(0, 0));
      var s3 := s2.(visited := [7], consumer := Written(0, 0));
      var s4 := s3.(flags := [false, false, false], consumer := Cleared(0, 0));
      && Step(s0, Look, s1) && Step(s1, Consume, s2) && Step(s2, Write, s3) && Step(s3, Clear, s4)
      && Step(s4, Dispose, OneDisposed())
  {
  }

  lemma RunToDisposed() returns (trace: seq<State>, acts: seq<Action>)
    ensures Run(trace, acts) && trace[|acts|] == OneDisposed()
  {
    hide Init, Step, EarlyReader, OneSent, OneDisposed, CanAcquire, Acquired;
    SendSteps();
    ConsumeSteps();
    var r := Acquired(EarlyReader(), 1);
    var s0 := OneSent();
    var s2 := s0.(consumed := 1, tails := 1, consumer := Waiting(0, 0));
    var s3 := s2.(visited := [7], consumer := Written(0, 0));
    trace, acts := RunToReader();
    trace, acts := RunAcquires(trace, acts, 1);
    trace, acts := Extend(trace, acts, Fill(1, 7),
                          r.(data := [7, 0, 0], producers := r.producers[1 := Filled(0, 0, 7)]));
    trace, acts := Extend(trace, acts, Commit(1), s0);
    trace, acts := Extend(trace, acts, Look, s0.(consumer := SawHead(1, 1)));
    trace, acts := Extend(trace, acts, Consume, s2);
    trace, acts := Extend(trace, acts, Write, s3);
    trace, acts := Extend(trace, acts, Clear, s3.(flags := [false, false, false], consumer := Cleared(0, 0)));
    trace, acts := Extend(trace, acts, Dispose, OneDisposed());
  }

  /**
   * Producer 0 reads head and tail, a whole lap goes by, and its swap takes the last slot: the full ring then looks
   * empty.
   */
  lemma FullLapLooksEmpty() returns (trace: seq<State>, acts: seq<Action>, t: State)
    ensures Run(trace, acts) && trace[|acts|].max > 0 && Swapped(trace[|acts|], 0, t) && !Inv(t)
    ensures t.heads == t.drops + t.max && t.acquired == t.disposed
  {
    hide Init, Step, Inv;
    trace, acts := RunToDisposed();
    trace, acts := RunAcquires(trace, acts, 1);
    trace, acts := RunAcquires(trace, acts, 2);
    var s := trace[|acts|];
    t := s.(acquired := 1, heads := 4, producers := s.producers[0 := Holding(0, 3)]);
    RunKeeps(trace, acts, |acts|);
    StaleSwap(s, 0, t);
  }
}

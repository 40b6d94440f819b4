/**
 * The `lc_*` cache behind the activity log and the resync extents: a fixed array of slots, each with a label,
 * a label it is about to change to, and a reference count. Which of the unused slots a miss recycles is left
 * open (any free slot, or any unreferenced one when none is free), so every recycling order is covered.
 */
module LruCache {
  import opened Options

  const LC_FREE: nat := 0xFFFF_FFFF

  datatype Slot = Slot(number: nat, newNumber: nat, refcnt: nat) {
    predicate Free() { newNumber == LC_FREE }
    predicate Pending() { number != newNumber }
    predicate Used() { refcnt > 0 }
  }

  datatype Cache = Cache(slots: seq<Slot>, used: nat, pending: nat, maxPending: nat, locked: bool, starving: bool) {

    /** No label twice; unused labels are committed; the counters count. */
    ghost predicate Valid() {
      && (forall i, j :: 0 <= i < j < |slots| && !slots[i].Free() && !slots[j].Free() ==>
            slots[i].newNumber != slots[j].newNumber)
      && (forall i :: 0 <= i < |slots| ==> SlotOk(slots[i]))
      && used == Count(slots, UsedSlot)
      && pending == Count(slots, PendingSlot) <= maxPending
    }

    /** `__lc_find`: the slot hashed under `enr`. */
    function Find(enr: nat, includeChanging: bool): (r: Option<nat>)
      ensures r.Some? ==> r.value < |slots| && slots[r.value].newNumber == enr != LC_FREE
      ensures r.Some? && !includeChanging ==> !slots[r.value].Pending()
      ensures r.None? && enr != LC_FREE ==>
                forall i :: 0 <= i < |slots| && slots[i].newNumber == enr ==> !includeChanging && slots[i].Pending()
    {
      FindFrom(enr, includeChanging, 0)
    }

    function FindFrom(enr: nat, includeChanging: bool, from: nat): (r: Option<nat>)
      requires from <= |slots|
      ensures r.Some? ==> from <= r.value < |slots| && slots[r.value].newNumber == enr != LC_FREE
      ensures r.Some? && !includeChanging ==> !slots[r.value].Pending()
      ensures r.None? && enr != LC_FREE ==>
                forall i :: from <= i < |slots| && slots[i].newNumber == enr ==> !includeChanging && slots[i].Pending()
      decreases |slots| - from
    {
      if from == |slots| || enr == LC_FREE then None
      else if slots[from].newNumber == enr && (includeChanging || !slots[from].Pending()) then Some(from)
      else FindFrom(enr, includeChanging, from + 1)
    }

    /** `lc_is_used` */
    predicate IsUsed(enr: nat) {
      var e := Find(enr, true);
      e.Some? && slots[e.value].refcnt > 0
    }

    /** A slot `lc_prepare_for_change` may recycle. */
    predicate Recyclable(victim: nat) {
      && victim < |slots| && slots[victim].refcnt == 0
      && (slots[victim].Free() || forall i :: 0 <= i < |slots| ==> !slots[i].Free())
    }

    predicate UnusedAvailable() {
      exists i :: 0 <= i < |slots| && slots[i].refcnt == 0
    }

    /** `__lc_get`; `victim` is the slot a miss would recycle. */
    function Get(enr: nat, mayChange: bool, mayUseUncommitted: bool, victim: nat): (r: (Cache, Option<nat>))
      requires enr != LC_FREE
      requires UnusedAvailable() ==> Recyclable(victim)
      ensures |r.0.slots| == |slots| && r.0.maxPending == maxPending && r.0.locked == locked
      ensures r.1.None? ==> r.0.slots == slots && r.0.used == used && r.0.pending == pending
      ensures r.1.Some? ==> r.1.value < |slots| && r.0.slots[r.1.value].newNumber == enr
    {
      if starving then (this, None)
      else
        var e := Find(enr, true);
        if e.Some? then
          var s := slots[e.value];
          if s.Pending() && !mayUseUncommitted then (this, None)
          else
            (this.(slots := slots[e.value := s.(refcnt := s.refcnt + 1)],
                   used := if s.refcnt == 0 then used + 1 else used), e)
        else if !mayChange || locked then (this, None)
        else if !UnusedAvailable() then (this.(starving := true), None)
        else if pending >= maxPending then (this, None)
        else
          (this.(slots := slots[victim := slots[victim].(newNumber := enr, refcnt := 1)],
                 used := used + 1, pending := pending + 1, starving := false), Some(victim))
    }

    /** `lc_put`; unreferenced or uncommitted slots are a BUG. */
    function Put(i: nat): (r: Cache)
      requires i < |slots| && slots[i].refcnt > 0 && !slots[i].Pending() && used > 0
      ensures |r.slots| == |slots|
    {
      var s := slots[i];
      this.(slots := slots[i := s.(refcnt := s.refcnt - 1)],
            used := if s.refcnt == 1 then used - 1 else used,
            starving := starving && s.refcnt > 1)
    }

    /** `lc_committed` */
    function Committed(): (r: Cache)
      ensures |r.slots| == |slots| && r.pending == 0
    {
      this.(slots := seq(|slots|, i requires 0 <= i < |slots| => slots[i].(number := slots[i].newNumber)), pending := 0)
    }

    /** `lc_del`; a referenced slot is a BUG. */
    function Deleted(i: nat): (r: Cache)
      requires i < |slots| && slots[i].refcnt == 0
      ensures |r.slots| == |slots|
    {
      this.(slots := slots[i := Slot(LC_FREE, LC_FREE, 0)])
    }

    /** `lc_reset` */
    function Reset(): Cache {
      Cache(seq(|slots|, _ => Slot(LC_FREE, LC_FREE, 0)), 0, 0, maxPending, false, false)
    }
  }

  predicate UsedSlot(s: Slot) { s.Used() }
  predicate PendingSlot(s: Slot) { s.Pending() }

  predicate SlotOk(s: Slot) {
    && (s.Pending() ==> s.refcnt > 0 && !s.Free())
    && (s.Free() ==> s.refcnt == 0)
  }

  function Count(slots: seq<Slot>, p: Slot -> bool): nat {
    if slots == [] then 0
    else Count(slots[..|slots| - 1], p) + if p(slots[|slots| - 1]) then 1 else 0
  }

  lemma {:induction false} CountUpdate(slots: seq<Slot>, p: Slot -> bool, i: nat, s: Slot)
    requires i < |slots|
    ensures Count(slots[i := s], p) == Count(slots, p) - (if p(slots[i]) then 1 else 0) + if p(s) then 1 else 0
  {
    var n := |slots| - 1;
    if i == n {
      assert slots[i := s][..n] == slots[..n];
    } else {
      assert slots[i := s][..n] == slots[..n][i := s];
      CountUpdate(slots[..n], p, i, s);
    }
  }

  lemma {:induction false} CountNone(slots: seq<Slot>, p: Slot -> bool)
    requires forall i :: 0 <= i < |slots| ==> !p(slots[i])
    ensures Count(slots, p) == 0
  {
    if slots != [] {
      CountNone(slots[..|slots| - 1], p);
    }
  }

  lemma {:induction false} CountSame(s: seq<Slot>, t: seq<Slot>, p: Slot -> bool)
    requires |s| == |t| && forall i :: 0 <= i < |s| ==> p(s[i]) == p(t[i])
    ensures Count(s, p) == Count(t, p)
  {
    if s != [] {
      CountSame(s[..|s| - 1], t[..|t| - 1], p);
    }
  }

  lemma {:induction false} CountBound(slots: seq<Slot>, p: Slot -> bool)
    ensures Count(slots, p) <= |slots|
  {
    if slots != [] {
      CountBound(slots[..|slots| - 1], p);
    }
  }

  /** A count below the length leaves a slot that is not counted. */
  lemma {:induction false} CountRoom(slots: seq<Slot>, p: Slot -> bool)
    requires Count(slots, p) < |slots|
    ensures exists i :: 0 <= i < |slots| && !p(slots[i])
  {
    var n := |slots| - 1;
    if p(slots[n]) {
      CountRoom(slots[..n], p);
      var i :| 0 <= i < n && !p(slots[..n][i]);
      assert !p(slots[i]);
    }
  }

  lemma CountPositive(slots: seq<Slot>, p: Slot -> bool, i: nat)
    requires i < |slots| && p(slots[i])
    ensures Count(slots, p) > 0
  {
    var n := |slots| - 1;
    if i < n {
      CountPositive(slots[..n], p, i);
    }
  }

  lemma CountNoSlots(p: Slot -> bool)
    ensures Count([], p) == 0
  {
  }

  lemma CountNext(slots: seq<Slot>, p: Slot -> bool, i: nat)
    requires i < |slots|
    ensures Count(slots[..i + 1], p) == Count(slots[..i], p) + if p(slots[i]) then 1 else 0
  {
    assert slots[..i + 1][..i] == slots[..i];
  }

  lemma {:induction false} CountPrefix(slots: seq<Slot>, p: Slot -> bool, i: nat)
    requires i <= |slots|
    ensures Count(slots[..i], p) <= Count(slots, p)
    decreases |slots| - i
  {
    if i < |slots| {
      CountNext(slots, p, i);
      CountPrefix(slots, p, i + 1);
    } else {
      assert slots[..i] == slots;
    }
  }

  /** Every operation keeps the cache valid. */
  lemma GetValid(c: Cache, enr: nat, mayChange: bool, mayUseUncommitted: bool, victim: nat)
    requires c.Valid() && enr != LC_FREE
    requires c.UnusedAvailable() ==> c.Recyclable(victim)
    ensures c.Get(enr, mayChange, mayUseUncommitted, victim).0.Valid()
  {
    hide Count;
    var (c', r) := c.Get(enr, mayChange, mayUseUncommitted, victim);
    if r.Some? {
      CountUpdate(c.slots, UsedSlot, r.value, c'.slots[r.value]);
      CountUpdate(c.slots, PendingSlot, r.value, c'.slots[r.value]);
    }
  }

  lemma PutValid(c: Cache, i: nat)
    requires c.Valid() && i < |c.slots| && c.slots[i].refcnt > 0 && !c.slots[i].Pending()
    ensures c.used > 0 && c.Put(i).Valid()
    ensures c.Put(i).starving <==> c.starving && c.Put(i).slots[i].refcnt > 0
  {
    hide Count;
    CountPositive(c.slots, UsedSlot, i);
    CountUpdate(c.slots, UsedSlot, i, c.Put(i).slots[i]);
    CountUpdate(c.slots, PendingSlot, i, c.Put(i).slots[i]);
  }

  lemma CommittedValid(c: Cache)
    requires c.Valid()
    ensures c.Committed().Valid()
  {
    hide Count;
    CountSame(c.slots, c.Committed().slots, UsedSlot);
    CountNone(c.Committed().slots, PendingSlot);
  }

  lemma DeletedValid(c: Cache, i: nat)
    requires c.Valid() && i < |c.slots| && c.slots[i].refcnt == 0
    ensures c.Deleted(i).Valid()
  {
    hide Count;
    CountUpdate(c.slots, UsedSlot, i, c.Deleted(i).slots[i]);
    CountUpdate(c.slots, PendingSlot, i, c.Deleted(i).slots[i]);
  }

  lemma ResetValid(c: Cache)
    ensures c.Reset().Valid()
  {
    hide Count;
    CountNone(c.Reset().slots, UsedSlot);
    CountNone(c.Reset().slots, PendingSlot);
  }

  /**
   * The slot a miss would recycle: `lc->free.next`, else some unreferenced slot. Callers rely on no particular order.
   */
  method PickVictim(c: Cache) returns (v: nat)
    requires c.Valid()
    ensures c.UnusedAvailable() ==> c.Recyclable(v)
    ensures (exists i :: 0 <= i < |c.slots| && c.slots[i].refcnt == 0) ==>
              && v < |c.slots| && c.slots[v].refcnt == 0
              && (c.slots[v].Free() || forall i :: 0 <= i < |c.slots| ==> !c.slots[i].Free())
  {
    v := 0;
    for i := 0 to |c.slots|
      invariant forall j :: 0 <= j < i ==> !c.slots[j].Free()
      invariant (exists j :: 0 <= j < i && c.slots[j].refcnt == 0) ==> v < i && c.slots[v].refcnt == 0
    {
      if c.slots[i].Free() {
        return i;
      }
      if c.slots[i].refcnt == 0 {
        v := i;
      }
    }
  }
}

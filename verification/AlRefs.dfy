/** References on activity-log extents, seen per extent instead of per slot. */
module AlRefs {
  import opened Options
  import opened LruCache

  /** 512-byte sectors per activity-log extent of 4 MiB. */
  const AL_EXTENT_SECTORS := 8192

  /** First and last activity-log extent an interval of `size` bytes touches. */
  function FirstExtent(sector: nat): nat {
    sector / AL_EXTENT_SECTORS
  }

  function LastExtent(sector: nat, size: nat): nat
    requires size % 512 == 0
  {
    if size == 0 then FirstExtent(sector) else (sector + size / 512 - 1) / AL_EXTENT_SECTORS
  }

  /** The extents from first to last are exactly those holding a sector of the interval. */
  lemma ExtentsCover(sector: nat, size: nat, e: nat)
    requires size % 512 == 0 && size > 0
    ensures FirstExtent(sector) <= e <= LastExtent(sector, size)
       <==> exists s: nat :: sector <= s < sector + size / 512 && FirstExtent(s) == e
  {
    var end := sector + size / 512 - 1;
    if FirstExtent(sector) <= e <= LastExtent(sector, size) {
      var s := if e == FirstExtent(sector) then sector else e * AL_EXTENT_SECTORS;
      assert sector <= s <= end && FirstExtent(s) == e;
    }
  }

  /** References on extent `e`. */
  ghost function Refs(c: Cache, e: nat): nat {
    var i := c.Find(e, true);
    if i.Some? then c.slots[i.value].refcnt else 0
  }

  predicate Hot(c: Cache, e: nat) {
    c.Find(e, false).Some?
  }

  lemma FindValid(c: Cache, i: nat)
    requires c.Valid() && i < |c.slots| && !c.slots[i].Free()
    ensures c.Find(c.slots[i].newNumber, true) == Some(i)
    ensures c.Find(c.slots[i].newNumber, false) == if c.slots[i].Pending() then None else Some(i)
  {
  }

  lemma HotAt(c: Cache, i: nat)
    requires c.Valid() && i < |c.slots| && !c.slots[i].Free() && !c.slots[i].Pending()
    ensures Hot(c, c.slots[i].newNumber)
  {
    FindValid(c, i);
  }

  lemma HotIf(c: Cache, i: nat)
    requires c.Valid() && i < |c.slots| && !c.slots[i].Free()
    ensures Hot(c, c.slots[i].newNumber) <==> c.slots[i].number == c.slots[i].newNumber
  {
    FindValid(c, i);
  }

  lemma NotFound(c: Cache, e: nat, inc: bool)
    requires e == LC_FREE || forall i :: 0 <= i < |c.slots| ==> c.slots[i].newNumber != e
    ensures c.Find(e, inc).None?
  {
  }

  lemma LastRef(c: Cache, e: nat)
    requires c.Valid()
    ensures Hot(c, e) <==> c.Find(e, false).Some?
    ensures c.Find(e, false).Some? ==> Refs(c, e) == c.slots[c.Find(e, false).value].refcnt
  {
    var f := c.Find(e, false);
    if f.Some? {
      FindValid(c, f.value);
    }
  }

  /** A successful get adds one reference on its extent and changes no other extent's references. */
  lemma GetRefs(c: Cache, enr: nat, mayChange: bool, mayUseUncommitted: bool, victim: nat, e: nat)
    requires c.Valid() && enr != LC_FREE && (c.UnusedAvailable() ==> c.Recyclable(victim))
    ensures var (d, r) := c.Get(enr, mayChange, mayUseUncommitted, victim);
      Refs(d, e) == Refs(c, e) + if r.Some? && e == enr then 1 else 0
  {
    GetValid(c, enr, mayChange, mayUseUncommitted, victim);
    var (d, r) := c.Get(enr, mayChange, mayUseUncommitted, victim);
    if r.Some? {
      RelabelFind(c, d, r.value, enr, e);
    }
  }

  /** Changing one slot's label or count leaves the lookup of other labels alone. */
  lemma RelabelFind(c: Cache, d: Cache, i: nat, enr: nat, e: nat)
    requires c.Valid() && d.Valid() && |c.slots| == |d.slots| && i < |c.slots|
    requires forall j :: 0 <= j < |c.slots| && j != i ==> c.slots[j] == d.slots[j]
    requires d.slots[i].newNumber == enr != LC_FREE
    requires c.slots[i].newNumber == enr || c.slots[i].refcnt == 0
    requires c.slots[i].newNumber != enr ==> c.Find(enr, true).None?
    ensures d.Find(enr, true) == Some(i)
    ensures e != enr ==> Refs(d, e) == Refs(c, e)
    ensures Refs(c, enr) == if c.slots[i].newNumber == enr then c.slots[i].refcnt else 0
  {
    FindValid(d, i);
    if c.slots[i].newNumber == enr {
      FindValid(c, i);
    }
    if e != enr {
      var f, g := c.Find(e, true), d.Find(e, true);
      if f.Some? && f.value != i {
        FindValid(d, f.value);
      } else if g.Some? {
        FindValid(c, g.value);
      }
    }
  }

  /** `d` is `c` with one reference less on every committed, referenced extent in `[first, end)`. */
  ghost predicate PutEach(c: Cache, d: Cache, first: nat, end: nat) {
    && |d.slots| == |c.slots|
    && forall i :: 0 <= i < |c.slots| ==>
         d.slots[i] == if first <= c.slots[i].newNumber < end && !c.slots[i].Free() && !c.slots[i].Pending()
                         && c.slots[i].refcnt > 0
                       then c.slots[i].(refcnt := c.slots[i].refcnt - 1) else c.slots[i]
  }

  /**
   * Putting a range takes one reference from each hot, referenced extent; one that is not yet committed keeps its
   * own.
   */
  lemma PutRefs(c: Cache, d: Cache, first: nat, end: nat, e: nat)
    requires c.Valid() && d.Valid() && PutEach(c, d, first, end)
    ensures Refs(d, e) == Refs(c, e) - if first <= e < end && Hot(c, e) && Refs(c, e) > 0 then 1 else 0
    ensures Hot(d, e) == Hot(c, e)
  {
    var f := c.Find(e, true);
    if f.Some? {
      FindValid(c, f.value);
      FindValid(d, f.value);
    } else {
      NotFound(d, e, true);
      NotFound(d, e, false);
      NotFound(c, e, false);
    }
  }

  /** With room for one more used and one more pending slot, a cumulative get succeeds. */
  lemma RoomToGet(c: Cache, enr: nat, victim: nat)
    requires c.Valid() && enr != LC_FREE && (c.UnusedAvailable() ==> c.Recyclable(victim))
    requires !c.starving && !c.locked && c.used < |c.slots| && c.pending < c.maxPending
    ensures var (d, r) := c.Get(enr, true, true, victim);
      && r.Some? && d.used <= c.used + 1 && d.pending <= c.pending + 1 && !d.starving
  {
    CountRoom(c.slots, UsedSlot);
    var i :| 0 <= i < |c.slots| && !UsedSlot(c.slots[i]);
    assert c.slots[i].refcnt == 0;
  }

  /** Number of intervals, given as first and last extent, that cover extent `e`. */
  function Covering(intervals: seq<(nat, nat)>, e: nat): nat {
    if intervals == [] then 0
    else Covering(intervals[..|intervals| - 1], e)
         + if intervals[|intervals| - 1].0 <= e <= intervals[|intervals| - 1].1 then 1 else 0
  }

  lemma CoveringAppend(intervals: seq<(nat, nat)>, first: nat, last: nat)
    ensures forall e: nat ::
              Covering(intervals + [(first, last)], e) == Covering(intervals, e) + if first <= e <= last then 1 else 0
  {
    assert (intervals + [(first, last)])[..|intervals|] == intervals;
  }

  lemma {:induction false} CoveringRemove(intervals: seq<(nat, nat)>, i: nat, e: nat)
    requires i < |intervals|
    ensures Covering(intervals, e) == Covering(intervals[..i] + intervals[i + 1..], e)
                                      + if intervals[i].0 <= e <= intervals[i].1 then 1 else 0
  {
    var n := |intervals| - 1;
    var rest := intervals[..i] + intervals[i + 1..];
    if i == n {
      assert rest == intervals[..n];
    } else {
      CoveringRemove(intervals[..n], i, e);
      assert rest[..n - 1] == intervals[..n][..i] + intervals[..n][i + 1..];
      assert rest[n - 1] == intervals[n];
    }
  }

  /** A get by label: it is hot afterwards only if it was; referenced extents stay hot or pending as they were. */
  lemma GetHot(c: Cache, enr: nat, victim: nat, e: nat)
    requires c.Valid() && enr != LC_FREE && (c.UnusedAvailable() ==> c.Recyclable(victim))
    ensures var (d, r) := c.Get(enr, true, false, victim);
      && (Refs(c, e) > 0 || (e == enr && r.Some?) || Hot(c, enr) ==> Hot(d, e) == Hot(c, e))
      && (Hot(d, e) ==> Hot(c, e))
  {
    GetValid(c, enr, true, false, victim);
    var (d, r) := c.Get(enr, true, false, victim);
    if r.Some? {
      FindValid(d, r.value);
      var f, g := c.Find(e, true), d.Find(e, true);
      if f.Some? {
        FindValid(c, f.value);
        if f.value != r.value {
          FindValid(d, f.value);
        }
      } else {
        NotFound(c, e, false);
      }
      if g.Some? {
        FindValid(d, g.value);
      } else {
        NotFound(d, e, false);
      }
    }
  }

  /** Referenced extents that are in the log stay there. */
  ghost predicate StaysHot(c: Cache, d: Cache) {
    forall e: nat :: Refs(c, e) > 0 && Hot(c, e) ==> Hot(d, e)
  }

  /** A get recycles only unreferenced slots. */
  lemma GetStaysHot(c: Cache, enr: nat, mayChange: bool, mayUseUncommitted: bool, victim: nat)
    requires c.Valid() && enr != LC_FREE && (c.UnusedAvailable() ==> c.Recyclable(victim))
    ensures StaysHot(c, c.Get(enr, mayChange, mayUseUncommitted, victim).0)
  {
    hide Count;
    GetValid(c, enr, mayChange, mayUseUncommitted, victim);
    var d := c.Get(enr, mayChange, mayUseUncommitted, victim).0;
    forall e: nat | Refs(c, e) > 0 && Hot(c, e) ensures Hot(d, e) {
      var i := c.Find(e, true).value;
      FindValid(c, i);
      HotAt(d, i);
    }
  }

  /** All extents of an interval are in the log. */
  ghost predicate AllHot(c: Cache, io: (nat, nat)) {
    forall e: nat :: io.0 <= e <= io.1 ==> Hot(c, e)
  }

  lemma {:induction false} CoveringAt(intervals: seq<(nat, nat)>, i: nat, e: nat)
    requires i < |intervals| && intervals[i].0 <= e <= intervals[i].1
    ensures Covering(intervals, e) > 0
  {
    if i < |intervals| - 1 {
      CoveringAt(intervals[..|intervals| - 1], i, e);
    }
  }

  /** Where references count the outstanding intervals, an interval that is in the log stays there. */
  lemma IntervalStaysHot(c: Cache, d: Cache, intervals: seq<(nat, nat)>, i: nat)
    requires StaysHot(c, d) && i < |intervals| && AllHot(c, intervals[i])
    requires forall e: nat :: Refs(c, e) == Covering(intervals, e)
    ensures AllHot(d, intervals[i])
  {
    hide Refs, Hot;
    forall e: nat | intervals[i].0 <= e <= intervals[i].1 ensures Hot(d, e) {
      CoveringAt(intervals, i, e);
    }
  }

  lemma IntervalsStayHot(c: Cache, d: Cache, intervals: seq<(nat, nat)>)
    requires StaysHot(c, d) && forall e: nat :: Refs(c, e) == Covering(intervals, e)
    ensures forall i :: 0 <= i < |intervals| && AllHot(c, intervals[i]) ==> AllHot(d, intervals[i])
  {
    hide Refs, Hot, AllHot, StaysHot;
    forall i | 0 <= i < |intervals| && AllHot(c, intervals[i]) ensures AllHot(d, intervals[i]) {
      IntervalStaysHot(c, d, intervals, i);
    }
  }

  /** Extents from `first` up to `end` that are not in the log. */
  function Cold(c: Cache, first: nat, end: nat): nat {
    if end <= first then 0 else Cold(c, first, end - 1) + if Hot(c, end - 1) then 0 else 1
  }

  lemma PendingBound(c: Cache)
    requires c.Valid()
    ensures c.pending <= c.maxPending
  {
  }

  /** A get that succeeds announces a change exactly if the extent was not in the log. */
  lemma GetPending(c: Cache, enr: nat, victim: nat)
    requires c.Valid() && enr != LC_FREE && (c.UnusedAvailable() ==> c.Recyclable(victim))
    ensures var (d, r) := c.Get(enr, true, false, victim);
      d.maxPending == c.maxPending && d.pending == c.pending + if r.Some? && !Hot(c, enr) then 1 else 0
  {
    hide Count;
    var e := c.Find(enr, true);
    if e.Some? {
      FindValid(c, e.value);
    } else {
      NotFound(c, enr, false);
    }
  }

  /** The log has no slot to give for extent `enr` at the moment. */
  predicate Refuses(c: Cache, enr: nat) {
    || c.starving
    || var e := c.Find(enr, true);
       if e.Some? then c.slots[e.value].Pending() else c.locked || !c.UnusedAvailable() || c.pending >= c.maxPending
  }

  lemma RefusesIs(c: Cache, enr: nat, victim: nat)
    requires enr != LC_FREE && (c.UnusedAvailable() ==> c.Recyclable(victim))
    ensures c.Get(enr, true, false, victim).1.None? <==> Refuses(c, enr)
  {
  }

  /** Extents from `first` up to `end` without a reference: each will use a slot more. */
  ghost function Unreferenced(c: Cache, first: nat, end: nat): nat
    decreases end - first
  {
    if end <= first then 0 else Unreferenced(c, first + 1, end) + if Refs(c, first) > 0 then 0 else 1
  }

  /** Extent `e` has a slot whose change is not yet on disk. */
  predicate Uncommitted(c: Cache, e: nat) {
    var i := c.Find(e, true);
    i.Some? && c.slots[i.value].Pending()
  }

  /**
   * What taking the extents from `first` up to `end` one after the other needs whichever slots are recycled for
   * them: slots, no change on its way, and an unlocked log unless all extents are there.
   */
  ghost predicate Needs(c: Cache, first: nat, end: nat) {
    && !c.starving && c.used + Unreferenced(c, first, end) <= |c.slots|
    && (forall e: nat :: first <= e < end ==> !Uncommitted(c, e))
    && (!c.locked || forall e: nat :: first <= e < end ==> Hot(c, e))
  }

  /** With room for the changes, even if extents of the range themselves are recycled, that is enough. */
  ghost predicate Fits(c: Cache, first: nat, end: nat) {
    && Needs(c, first, end)
    && (c.pending + Unreferenced(c, first, end) <= c.maxPending || forall e: nat :: first <= e < end ==> Hot(c, e))
  }

  /** How a get that succeeds changes the log, apart from which slot it recycles. */
  lemma GetParts(c: Cache, enr: nat, victim: nat, e: nat)
    requires c.Valid() && enr != LC_FREE && (c.UnusedAvailable() ==> c.Recyclable(victim)) && !Refuses(c, enr)
    ensures var d := c.Get(enr, true, false, victim).0;
      && !d.starving && d.used == c.used + (if Refs(c, enr) > 0 then 0 else 1)
      && (e != enr ==> Uncommitted(d, e) == Uncommitted(c, e))
      && !Uncommitted(c, enr) && (Hot(c, enr) || (Refs(c, enr) == 0 && !c.locked))
  {
    hide Count;
    GetValid(c, enr, true, false, victim);
    var (d, r) := c.Get(enr, true, false, victim);
    var h := c.Find(enr, true);
    if h.Some? {
      FindValid(c, h.value);
    }
    if e != enr {
      var f, g := c.Find(e, true), d.Find(e, true);
      if f.Some? {
        FindValid(c, f.value);
        if f.value != r.value {
          FindValid(d, f.value);
        }
      }
      if g.Some? {
        FindValid(d, g.value);
        if g.value != r.value {
          FindValid(c, g.value);
        }
      }
    }
  }

  lemma {:induction false} SameUnreferenced(c: Cache, d: Cache, first: nat, end: nat)
    requires forall e: nat :: first <= e < end ==> Refs(d, e) == Refs(c, e)
    ensures Unreferenced(d, first, end) == Unreferenced(c, first, end)
    decreases end - first
  {
    hide Refs;
    if first < end {
      SameUnreferenced(c, d, first + 1, end);
    }
  }

  /** Taking the first extent of a range leaves exactly what the rest needs. */
  lemma NeedsStep(c: Cache, enr: nat, victim: nat, end: nat)
    requires c.Valid() && enr < end <= LC_FREE && (c.UnusedAvailable() ==> c.Recyclable(victim)) && !Refuses(c, enr)
    ensures var d := c.Get(enr, true, false, victim).0;
      (Needs(d, enr + 1, end) <==> Needs(c, enr, end)) && (Fits(c, enr, end) ==> Fits(d, enr + 1, end))
  {
    hide Refs, Hot, Uncommitted, Refuses;
    var d := c.Get(enr, true, false, victim).0;
    GetParts(c, enr, victim, enr);
    GetPending(c, enr, victim);
    forall e: nat
      ensures e != enr ==> Uncommitted(d, e) == Uncommitted(c, e) && Refs(d, e) == Refs(c, e)
      ensures Hot(c, enr) ==> Hot(d, e) == Hot(c, e)
    {
      GetParts(c, enr, victim, e);
      GetRefs(c, enr, true, false, victim, e);
      GetHot(c, enr, victim, e);
    }
    SameUnreferenced(c, d, enr + 1, end);
  }

  lemma {:induction false} NoneUnused(slots: seq<Slot>, i: nat)
    requires Count(slots, UsedSlot) == |slots| && i < |slots|
    ensures slots[i].refcnt > 0
  {
    var n := |slots| - 1;
    CountBound(slots[..n], UsedSlot);
    if i < n {
      NoneUnused(slots[..n], i);
    }
  }

  /** When a log with extent `enr` asked for has nothing to give, told by extents and counts. */
  lemma RefusesWhen(c: Cache, enr: nat)
    requires c.Valid() && enr != LC_FREE
    ensures Refuses(c, enr) <==>
              || c.starving || Uncommitted(c, enr)
              || (!Hot(c, enr) && (c.locked || c.used >= |c.slots| || c.pending >= c.maxPending))
  {
    CountBound(c.slots, UsedSlot);
    if c.used < |c.slots| {
      CountRoom(c.slots, UsedSlot);
      var i :| 0 <= i < |c.slots| && !UsedSlot(c.slots[i]);
      assert c.slots[i].refcnt == 0;
    } else {
      forall i | 0 <= i < |c.slots| ensures c.slots[i].refcnt > 0 {
        NoneUnused(c.slots, i);
      }
    }
    var f := c.Find(enr, true);
    if f.Some? {
      FindValid(c, f.value);
    } else {
      NotFound(c, enr, false);
    }
  }

  /** What stands in the way of extent `x` once all from `first` up to it, which are in the log, have been taken. */
  ghost predicate Stops(c: Cache, first: nat, x: nat) {
    || c.starving || Uncommitted(c, x)
    || (!Hot(c, x) && (c.locked || c.used + Unreferenced(c, first, x) >= |c.slots| || c.pending >= c.maxPending))
  }

  /** Extents from `first` up to `enr`, all of them in the log, have been taken. */
  ghost predicate TookHot(c: Cache, d: Cache, first: nat, enr: nat) {
    && |d.slots| == |c.slots| && d.maxPending == c.maxPending && d.locked == c.locked && d.starving == c.starving
    && d.pending == c.pending && d.used == c.used + Unreferenced(c, first, enr)
    && forall e: nat :: Hot(d, e) == Hot(c, e) && Uncommitted(d, e) == Uncommitted(c, e)
  }

  lemma NoneTaken(c: Cache, first: nat)
    ensures TookHot(c, c, first, first)
  {
  }

  lemma {:induction false} UnreferencedMore(c: Cache, first: nat, end: nat)
    requires first <= end
    ensures Unreferenced(c, first, end + 1) == Unreferenced(c, first, end) + if Refs(c, end) > 0 then 0 else 1
    decreases end - first
  {
    hide Refs;
    if first < end {
      UnreferencedMore(c, first + 1, end);
    } else {
      assert Unreferenced(c, end + 1, end + 1) == 0;
    }
  }

  lemma TookMore(c: Cache, d: Cache, first: nat, enr: nat, victim: nat)
    requires TookHot(c, d, first, enr) && first <= enr < LC_FREE && Hot(c, enr) && d.Valid()
    requires (d.UnusedAvailable() ==> d.Recyclable(victim)) && !Refuses(d, enr) && Refs(d, enr) == Refs(c, enr)
    ensures TookHot(c, d.Get(enr, true, false, victim).0, first, enr + 1)
  {
    hide Refs, Hot, Uncommitted, Refuses;
    var t := d.Get(enr, true, false, victim).0;
    UnreferencedMore(c, first, enr);
    GetParts(d, enr, victim, enr);
    GetPending(d, enr, victim);
    forall e: nat ensures Hot(t, e) == Hot(c, e) && Uncommitted(t, e) == Uncommitted(c, e) {
      GetHot(d, enr, victim, e);
      GetParts(d, enr, victim, e);
      if e == enr {
        HotIsCommitted(t, enr, d, victim);
      }
    }
    NotStarving(d, enr);
  }

  lemma NotStarving(c: Cache, enr: nat)
    requires !Refuses(c, enr)
    ensures !c.starving
  {
  }

  lemma HotIsCommitted(t: Cache, e: nat, d: Cache, victim: nat)
    requires d.Valid() && e != LC_FREE && (d.UnusedAvailable() ==> d.Recyclable(victim))
    requires t == d.Get(e, true, false, victim).0 && Hot(t, e)
    ensures !Uncommitted(t, e)
  {
    GetValid(d, e, true, false, victim);
    var f := t.Find(e, true);
    if f.Some? {
      FindValid(t, f.value);
    }
  }

  lemma StopsIs(c: Cache, d: Cache, first: nat, enr: nat)
    requires TookHot(c, d, first, enr) && d.Valid() && enr != LC_FREE
    ensures Refuses(d, enr) <==> Stops(c, first, enr)
  {
    hide Refuses, Uncommitted, Hot, Refs;
    RefusesWhen(d, enr);
  }

  lemma NothingNeeded(c: Cache, end: nat)
    requires c.Valid()
    ensures Needs(c, end, end) <==> !c.starving
  {
    CountBound(c.slots, UsedSlot);
  }

  lemma NeedsOne(c: Cache, enr: nat, end: nat)
    requires c.Valid() && enr < end && Fits(c, enr, end)
    ensures !Refuses(c, enr)
  {
    hide Count;
    if c.Find(enr, true).Some? {
      assert !Uncommitted(c, enr);
    } else {
      NotFound(c, enr, false);
      assert !Hot(c, enr) && Unreferenced(c, enr, end) > 0;
      CountRoom(c.slots, UsedSlot);
      var i :| 0 <= i < |c.slots| && !UsedSlot(c.slots[i]);
      assert c.slots[i].refcnt == 0;
    }
  }

  /** Committing makes every used extent hot and changes no reference. */
  lemma CommitRefs(c: Cache, e: nat)
    requires c.Valid()
    ensures Refs(c.Committed(), e) == Refs(c, e)
    ensures Refs(c, e) > 0 ==> Hot(c.Committed(), e)
  {
    CommittedValid(c);
    var d := c.Committed();
    var f := c.Find(e, true);
    if f.Some? {
      FindValid(c, f.value);
      FindValid(d, f.value);
    } else {
      NotFound(d, e, true);
    }
  }
}

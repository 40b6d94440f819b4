/** From sector ranges to bits: which 4 KiB blocks a request sets out of sync or in sync. */
module SyncRange {

  const BM_SECT_PER_BIT := 8
  /** Half of what one activity-log transaction can activate: 32 extents of 4 MiB. */
  const MAX_BATCH_BIO_SIZE := 0x800_0000

  datatype Range = NoBits | Bits(first: nat, last: nat) {
    predicate Contains(b: nat) { Bits? && first <= b <= last }
  }

  /** Last sector of a request of `size` bytes, cut off at the end of the device. */
  function EndSector(sector: nat, size: nat, capacity: nat): nat
    requires size >= 512 && sector < capacity
  {
    var e := sector + size / 512 - 1;
    if e < capacity then e else capacity - 1
  }

  predicate PlausibleSize(size: nat) {
    0 < size <= MAX_BATCH_BIO_SIZE && size % 512 == 0
  }

  /** Bits `__bsr_change_sync` hands on for marking out of sync or recording a failure, or for marking in sync. */
  function ChangeSync(inSync: bool, sector: nat, size: nat, capacity: nat): Range {
    if !PlausibleSize(size) || sector >= capacity then NoBits
    else
      var e := EndSector(sector, size, capacity);
      if !inSync then Bits(sector / 8, e / 8)
      else if e < BM_SECT_PER_BIT - 1 then NoBits
      else
        Bits((sector + BM_SECT_PER_BIT - 1) / 8,
             if e == capacity - 1 then (capacity - 1) / 8 else (e - (BM_SECT_PER_BIT - 1)) / 8)
  }

  /** Bits `bsr_set_sync` sets, or clears. */
  function SetSync(clear: bool, sector: nat, size: nat, capacity: nat): Range {
    if size == 0 || size % 512 != 0 || sector >= capacity then NoBits
    else
      var e := EndSector(sector, size, capacity);
      if !clear then Bits(sector / 8, e / 8)
      else
        var start := (sector + BM_SECT_PER_BIT - 1) / 8;
        if e == capacity - 1 then Bits(start, e / 8)
        else if (e + 1) / 8 == 0 then NoBits
        else Bits(start, (e + 1) / 8 - 1)
  }

  /** Block `b` holds a sector of the request. */
  ghost predicate Touched(b: nat, sector: nat, size: nat, capacity: nat) {
    exists s: nat :: sector <= s < sector + size / 512 && s < capacity && s / 8 == b
  }

  /** Block `b` exists and all its sectors that exist lie in the request. */
  ghost predicate Covered(b: nat, sector: nat, size: nat, capacity: nat) {
    8 * b < capacity && forall s: nat :: s / 8 == b && s < capacity ==> sector <= s < sector + size / 512
  }

  lemma BlockExists(b: nat, sector: nat, size: nat, capacity: nat)
    ensures Touched(b, sector, size, capacity) || Covered(b, sector, size, capacity) ==> 8 * b < capacity
  {
  }

  lemma OutOfSyncRange(b: nat, sector: nat, size: nat, capacity: nat)
    requires size >= 512 && sector < capacity
    ensures sector / 8 <= b <= EndSector(sector, size, capacity) / 8 <==> Touched(b, sector, size, capacity)
  {
    var e := EndSector(sector, size, capacity);
    if sector / 8 <= b <= e / 8 {
      var s := if b == sector / 8 then sector else 8 * b;
      assert sector <= s <= e && s / 8 == b;
    }
  }

  /** Marking out of sync covers every block the request touches, and only those. */
  lemma OutOfSyncExact(b: nat, sector: nat, size: nat, capacity: nat)
    ensures PlausibleSize(size) && sector < capacity ==>
              (ChangeSync(false, sector, size, capacity).Contains(b) <==> Touched(b, sector, size, capacity))
    ensures size > 0 && size % 512 == 0 && sector < capacity ==>
              (SetSync(false, sector, size, capacity).Contains(b) <==> Touched(b, sector, size, capacity))
  {
    if size > 0 && size % 512 == 0 && sector < capacity {
      OutOfSyncRange(b, sector, size, capacity);
    }
  }

  lemma CoveredBounds(b: nat, sector: nat, size: nat, capacity: nat)
    requires size >= 512 && size % 512 == 0 && sector < capacity
    ensures var e := EndSector(sector, size, capacity);
      Covered(b, sector, size, capacity) <==>
        (sector + 7) / 8 <= b && 8 * b < capacity && (8 * b + 7 <= e || e == capacity - 1)
  {
    var e := EndSector(sector, size, capacity);
    if Covered(b, sector, size, capacity) {
      assert (8 * b) / 8 == b;
      var last := if 8 * b + 7 < capacity then 8 * b + 7 else capacity - 1;
      assert last / 8 == b;
    }
  }

  /** `bsr_set_sync` marks in sync exactly the blocks the request covers, a partial last block included. */
  lemma SetSyncClearsCovered(b: nat, sector: nat, size: nat, capacity: nat)
    requires size > 0 && size % 512 == 0 && sector < capacity
    ensures SetSync(true, sector, size, capacity).Contains(b) <==> Covered(b, sector, size, capacity)
  {
    CoveredBounds(b, sector, size, capacity);
  }

  /** `__bsr_change_sync` does too, exactly unless the whole device is one incomplete block. */
  lemma ChangeSyncClearsCovered(sector: nat, size: nat, capacity: nat)
    requires PlausibleSize(size) && sector < capacity
    ensures (forall b: nat ::
               ChangeSync(true, sector, size, capacity).Contains(b) <==> Covered(b, sector, size, capacity))
       <==> !(sector == 0 && capacity < 8 && size / 512 >= capacity)
    ensures forall b: nat :: ChangeSync(true, sector, size, capacity).Contains(b) ==> Covered(b, sector, size, capacity)
  {
    forall b: nat
      ensures var e := EndSector(sector, size, capacity);
        Covered(b, sector, size, capacity) <==>
          (sector + 7) / 8 <= b && 8 * b < capacity && (8 * b + 7 <= e || e == capacity - 1)
    {
      CoveredBounds(b, sector, size, capacity);
    }
    if sector == 0 && capacity < 8 && size / 512 >= capacity {
      assert Covered(0, sector, size, capacity);
      assert !ChangeSync(true, sector, size, capacity).Contains(0);
    }
  }

  /**
   * The two roundings agree, exactly unless the whole device is one incomplete block that is marked in sync;
   * in particular they agree whenever the request ends at sector 7 or later.
   */
  lemma RoundingsAgree(inSync: bool, sector: nat, size: nat, capacity: nat)
    requires PlausibleSize(size) && sector < capacity
    ensures (forall b: nat :: ChangeSync(inSync, sector, size, capacity).Contains(b) <==>
                              SetSync(inSync, sector, size, capacity).Contains(b))
       <==> !(inSync && sector == 0 && capacity < 8 && size / 512 >= capacity)
    ensures inSync && sector == 0 && capacity < 8 && size / 512 >= capacity ==> EndSector(sector, size, capacity) < 7
  {
    if inSync {
      ChangeSyncClearsCovered(sector, size, capacity);
      forall b: nat ensures SetSync(true, sector, size, capacity).Contains(b) <==> Covered(b, sector, size, capacity) {
        SetSyncClearsCovered(b, sector, size, capacity);
      }
    }
  }

  /** A device of three sectors, marked in sync as a whole: one rounding clears its only block, the other nothing. */
  lemma RoundingsDiffer()
    ensures SetSync(true, 0, 2048, 3).Contains(0) && !ChangeSync(true, 0, 2048, 3).Contains(0)
  {
    RoundingsAgree(true, 0, 2048, 3);
  }
}

/**
 * The on-disk ring of activity-log transactions: which transactions it still holds, how the offline tool finds
 * the oldest and the newest of them, and that replaying them gives back the slot table.
 */
module AlRing {
  import opened Arithmetic
  import opened LruCache
  import opened AlRecovery
  import AlStripes

  const ENODATA := 61
  const EINVAL := 22

  /** A block as the tool classifies it: bad checksum, never used, or a transaction. */
  datatype Block = Invalid | Initialized | Written(t: Transaction)

  /** The ring position of transaction `j`; transaction numbers have 32 bits. */
  function Position(j: nat, size: nat): nat
    requires size > 0
  {
    j % U32 % size
  }

  /** How far position `b` is ahead of position `from`, going round. */
  function Age(b: nat, from: nat, size: nat): nat
    requires from < size && b < size
  {
    if b >= from then b - from else b - from + size
  }

  /** The transaction number does not wrap within `lo..hi`, or wraps without moving the ring. */
  ghost predicate Steady(lo: nat, hi: nat, size: nat)
    requires size > 0 && lo < hi
  {
    lo / U32 == (hi - 1) / U32 || U32 % size == 0
  }

  /** No later transaction took the place of `j`. */
  ghost predicate Kept(j: nat, n: nat, size: nat)
    requires size > 0
  {
    forall i :: j < i < n ==> Position(i, size) != Position(j, size)
  }

  // ---- positions

  lemma AgeInjective(a: nat, b: nat, from: nat, size: nat)
    requires from < size && a < size && b < size && Age(a, from, size) == Age(b, from, size)
    ensures a == b
  {
  }

  lemma {:induction false} AgeModulo(x: nat, k: nat, size: nat)
    requires 0 < size && k < size
    ensures (x + k) % size < size && x % size < size
    ensures Age((x + k) % size, x % size, size) == k
  {
    if k > 0 {
      AgeModulo(x, k - 1, size);
      StepModulo(x + (k - 1), size);
      assert x + k == x + (k - 1) + 1;
    }
  }

  lemma ModuloOfModulo(j: nat, size: nat)
    requires size > 0 && U32 % size == 0
    ensures j % U32 % size == j % size
  {
    var d := U32 / size;
    DivMod(U32, size);
    DivMod(j, U32);
    var q, r := j / U32, j % U32;
    DivMod(r, size);
    assert j == (q * d + r / size) * size + r % size by {
      assert q * U32 == q * d * size by { assert d * size == U32; Associate(q, d, size); }
      DistributeSum(q * d, r / size, size);
    }
    Quotient(r % size, q * d + r / size, size);
  }

  lemma SameQuotient(lo: nat, j: nat, hi: nat)
    requires lo <= j <= hi && lo / U32 == hi / U32
    ensures j / U32 == lo / U32 && j % U32 == lo % U32 + (j - lo)
  {
  }

  /** In a steady stretch, positions advance one by one. */
  lemma PositionAge(lo: nat, j: nat, hi: nat, size: nat)
    requires size > 0 && lo <= j < hi && j < lo + size && Steady(lo, hi, size)
    ensures Position(j, size) < size && Position(lo, size) < size
    ensures Age(Position(j, size), Position(lo, size), size) == j - lo
  {
    hide Age;
    if U32 % size == 0 {
      ModuloOfModulo(j, size);
      ModuloOfModulo(lo, size);
      AgeModulo(lo, j - lo, size);
    } else {
      SameQuotient(lo, j, hi - 1);
      AgeModulo(lo % U32, j - lo, size);
    }
  }

  lemma KeptInSteady(lo: nat, j: nat, n: nat, size: nat)
    requires size > 0 && lo <= j < n <= lo + size && Steady(lo, n, size)
    ensures Kept(j, n, size)
  {
    hide Position, Age;
    forall i | j < i < n ensures Position(i, size) != Position(j, size) {
      PositionAge(lo, i, n, size);
      PositionAge(lo, j, n, size);
    }
  }

  lemma WrapInside(lo: nat, n: nat, size: nat) returns (m: nat)
    requires 0 < size < U32 && n == lo + size && lo / U32 != (n - 1) / U32
    ensures lo < m < n && m % U32 == 0
  {
    m := (n - 1) / U32 * U32;
  }

  lemma BackFromWrap(m: nat, a: nat)
    requires m % U32 == 0 && 0 < a <= U32 && a <= m
    ensures (m - a) % U32 == U32 - a
  {
  }

  lemma AheadOfWrap(m: nat, b: nat)
    requires m % U32 == 0 && b < U32
    ensures (m + b) % U32 == b
  {
  }

  lemma BelowMultiple(x: nat, r: nat, size: nat, d: nat)
    requires 0 < size && x % size == r && d <= r
    ensures (x - d) % size == r - d
  {
    DivMod(x, size);
    Quotient(r - d, x / size, size);
  }

  /** Where the number wraps and moves the ring, two of the last transactions share a position. */
  lemma Collision(n: nat, size: nat) returns (j: nat, i: nat)
    requires 0 < size <= n && size < U32 && !Steady(n - size, n, size)
    ensures n - size <= j < i < n && Position(i, size) == Position(j, size)
  {
    var m := WrapInside(n - size, n, size);
    var r, a := U32 % size, m - (n - size);
    var d := if r <= a then r else a;
    j, i := m - d, m + (r - d);
    assert Position(j, size) == r - d by {
      BackFromWrap(m, d);
      BelowMultiple(U32, r, size, d);
    }
    assert Position(i, size) == r - d by {
      AheadOfWrap(m, r - d);
      Quotient(r - d, 0, size);
    }
  }

  /** The ring holds the last `size` transactions exactly when the number did not wrap among them, or the ring
      size divides 2^32. */
  lemma RingKeepsLast(n: nat, size: nat)
    requires 0 < size <= n && size < U32
    ensures (forall j :: n - size <= j < n ==> Kept(j, n, size)) <==> Steady(n - size, n, size)
  {
    hide Position;
    if Steady(n - size, n, size) {
      forall j | n - size <= j < n ensures Kept(j, n, size) {
        KeptInSteady(n - size, j, n, size);
      }
    } else {
      var j, i := Collision(n, size);
      assert !Kept(j, n, size);
    }
  }

  // ---- the offline replay

  /** `(int)a - (int)b` on 32-bit transaction numbers. */
  function SignedDiff(a: nat, b: nat): int
  {
    (a - b + U32 / 2) % U32 - U32 / 2
  }

  lemma SignedDiffIs(lo: nat, a: nat, b: nat)
    requires a < U32 / 2 && b < U32 / 2
    ensures SignedDiff((lo + a) % U32, (lo + b) % U32) == a - b
  {
  }

  /** The ring, read in position order, holds transactions `lo..hi` of the log and no others. */
  ghost predicate HoldsWindow(cpu: seq<Block>, log: seq<Transaction>, lo: nat, hi: nat)
  {
    && lo < hi <= |log| && hi - lo <= |cpu| < U32 / 2
    && (forall k :: 0 <= k < |log| ==> log[k].Shape() && log[k].number == k % U32)
    && var from := Position(lo, |cpu|);
       && from < |cpu|
       && forall b :: 0 <= b < |cpu| ==>
            && (cpu[b].Written? <==> Age(b, from, |cpu|) < hi - lo)
            && (cpu[b].Written? ==> cpu[b].t == log[lo + Age(b, from, |cpu|)])
  }

  /** `cpu` is the log area `disk` read position by position. */
  ghost predicate InPositionOrder(cpu: seq<Block>, disk: seq<Block>, stripes: nat, stripeSize: nat)
    requires stripes > 0
  {
    && |cpu| == |disk|
    && forall b: nat :: b < |disk| ==>
         AlStripes.Block(stripes, stripeSize, b) < |disk| && cpu[b] == disk[AlStripes.Block(stripes, stripeSize, b)]
  }

  /** `v84_al_disk_to_cpu` over the ring: blocks in position order. */
  method ReadRing(disk: seq<Block>, stripes: nat, stripeSize: nat) returns (cpu: seq<Block>)
    requires stripes > 0 && 0 < stripes * stripeSize < U32 && |disk| == stripes * stripeSize
    ensures InPositionOrder(cpu, disk, stripes, stripeSize)
  {
    cpu := [];
    for b := 0 to |disk|
      invariant |cpu| == b
      invariant forall i: nat :: i < b ==>
                  && AlStripes.Block(stripes, stripeSize, i) < |disk|
                  && cpu[i] == disk[AlStripes.Block(stripes, stripeSize, i)]
    {
      AlStripes.BlockSmall(stripes, stripeSize, b);
      cpu := cpu + [disk[AlStripes.Block(stripes, stripeSize, b)]];
    }
  }

  /** What the scan knows of the ring's transactions among the first `b` positions. */
  ghost predicate Bounds(cpu: seq<Block>, b: nat, oldest: nat, newest: nat, from: nat)
  {
    && from < |cpu| && b <= |cpu| && oldest < b && newest < b
    && cpu[oldest].Written? && cpu[newest].Written?
    && forall i :: 0 <= i < b && cpu[i].Written? ==>
         Age(oldest, from, |cpu|) <= Age(i, from, |cpu|) <= Age(newest, from, |cpu|)
  }

  lemma CompareAges(cpu: seq<Block>, log: seq<Transaction>, lo: nat, hi: nat, a: nat, b: nat)
    requires HoldsWindow(cpu, log, lo, hi) && a < |cpu| && b < |cpu| && cpu[a].Written? && cpu[b].Written?
    ensures SignedDiff(cpu[a].t.number, cpu[b].t.number)
         == Age(a, Position(lo, |cpu|), |cpu|) - Age(b, Position(lo, |cpu|), |cpu|)
  {
    hide SignedDiff, Position, Age;
    var from := Position(lo, |cpu|);
    SignedDiffIs(lo, Age(a, from, |cpu|), Age(b, from, |cpu|));
  }

  /** Blocks that do not check out among the first `n`. */
  ghost predicate NoUpdates(cpu: seq<Block>) {
    forall i :: 0 <= i < |cpu| ==> !cpu[i].Written?
  }

  ghost predicate NoneReadable(cpu: seq<Block>) {
    forall i :: 0 <= i < |cpu| ==> cpu[i].Invalid?
  }

  ghost predicate AtMostFirstBad(cpu: seq<Block>) {
    forall i :: 0 < i < |cpu| ==> !cpu[i].Invalid?
  }

  function Bad(cpu: seq<Block>, n: nat): nat
    requires n <= |cpu|
  {
    if n == 0 then 0 else Bad(cpu, n - 1) + if cpu[n - 1].Invalid? then 1 else 0
  }

  lemma {:induction false} NoBad(cpu: seq<Block>, from: nat, n: nat)
    requires from <= n <= |cpu| && forall i :: from <= i < n ==> !cpu[i].Invalid?
    ensures Bad(cpu, n) == Bad(cpu, from)
  {
    if from < n {
      NoBad(cpu, from, n - 1);
    }
  }

  lemma UnreadableHasNone(cpu: seq<Block>)
    ensures NoneReadable(cpu) ==> NoUpdates(cpu)
  {
  }

  lemma {:induction false} SomeBad(cpu: seq<Block>, i: nat, n: nat)
    requires 0 < i < n <= |cpu| && cpu[i].Invalid?
    ensures Bad(cpu, n) > if cpu[0].Invalid? then 1 else 0
    decreases n
  {
    if i < n - 1 {
      SomeBad(cpu, i, n - 1);
    } else {
      AtLeastFirst(cpu, n - 1);
    }
  }

  lemma {:induction false} AtLeastFirst(cpu: seq<Block>, n: nat)
    requires 0 < n <= |cpu|
    ensures Bad(cpu, n) >= if cpu[0].Invalid? then 1 else 0
  {
    if n > 1 {
      AtLeastFirst(cpu, n - 1);
    }
  }

  /** No block but the first is bad exactly if the first accounts for all bad ones. */
  lemma BadFirst(cpu: seq<Block>)
    requires cpu != []
    ensures AtMostFirstBad(cpu) <==> Bad(cpu, |cpu|) == if cpu[0].Invalid? then 1 else 0
    ensures cpu[0].Invalid? ==> Bad(cpu, |cpu|) > 0
  {
    AtLeastFirst(cpu, |cpu|);
    if AtMostFirstBad(cpu) {
      NoBad(cpu, 1, |cpu|);
    } else {
      var i :| 0 < i < |cpu| && cpu[i].Invalid?;
      SomeBad(cpu, i, |cpu|);
    }
  }

  /** The first loop of `replay_al_84`: the oldest and the newest transaction by number. */
  method FindRange(cpu: seq<Block>, ghost log: seq<Transaction>, ghost lo: nat, ghost hi: nat)
    returns (valid: nat, updates: nat, oldest: nat, newest: nat)
    ensures valid + Bad(cpu, |cpu|) == |cpu|
    ensures updates == 0 <==> NoUpdates(cpu)
    ensures valid == 0 <==> NoneReadable(cpu)
    ensures updates > 0 ==> oldest < |cpu| && newest < |cpu|
    ensures HoldsWindow(cpu, log, lo, hi) && updates > 0 ==> Bounds(cpu, |cpu|, oldest, newest, Position(lo, |cpu|))
  {
    hide Position, Age, SignedDiff, HoldsWindow;
    valid, updates, oldest, newest := 0, 0, 0, 0;
    var oldestNr, newestNr := 0, 0;
    for b := 0 to |cpu|
      invariant valid + Bad(cpu, b) == b
      invariant updates == 0 <==> forall i :: 0 <= i < b ==> !cpu[i].Written?
      invariant valid == 0 <==> forall i :: 0 <= i < b ==> cpu[i].Invalid?
      invariant updates > 0 ==> oldest < b && newest < b && cpu[oldest].Written? && cpu[newest].Written?
      invariant updates > 0 ==> oldestNr == cpu[oldest].t.number && newestNr == cpu[newest].t.number
      invariant HoldsWindow(cpu, log, lo, hi) && updates > 0 ==> Bounds(cpu, b, oldest, newest, Position(lo, |cpu|))
    {
      if HoldsWindow(cpu, log, lo, hi) && cpu[b].Written? {
        WindowStart(cpu, log, lo, hi);
        CompareAges(cpu, log, lo, hi, b, if updates == 0 then b else oldest);
        CompareAges(cpu, log, lo, hi, b, if updates == 0 then b else newest);
      }
      if cpu[b].Invalid? {
        continue;
      }
      valid := valid + 1;
      if cpu[b].Initialized? {
        continue;
      }
      updates := updates + 1;
      if updates == 1 {
        oldest, oldestNr, newest, newestNr := b, cpu[b].t.number, b, cpu[b].t.number;
        continue;
      }
      if SignedDiff(cpu[b].t.number, oldestNr) < 0 {
        oldest, oldestNr := b, cpu[b].t.number;
      }
      if SignedDiff(cpu[b].t.number, newestNr) > 0 {
        newest, newestNr := b, cpu[b].t.number;
      }
    }
  }

  lemma WindowStart(cpu: seq<Block>, log: seq<Transaction>, lo: nat, hi: nat)
    requires HoldsWindow(cpu, log, lo, hi)
    ensures |cpu| > 0 && Position(lo, |cpu|) < |cpu| && lo < hi <= |log| && hi - lo <= |cpu|
    ensures forall k :: 0 <= k < |log| ==> log[k].Shape()
  {
    hide Position, Age;
  }

  lemma RangeIs(cpu: seq<Block>, log: seq<Transaction>, lo: nat, hi: nat, oldest: nat, newest: nat)
    requires HoldsWindow(cpu, log, lo, hi) && Bounds(cpu, |cpu|, oldest, newest, Position(lo, |cpu|))
    ensures oldest == Position(lo, |cpu|)
    ensures (if newest < oldest then newest + |cpu| else newest) == oldest + (hi - lo) - 1
  {
    hide Position;
    var from := Position(lo, |cpu|);
    assert cpu[from].Written?;
    var last := if from + (hi - lo) - 1 < |cpu| then from + (hi - lo) - 1 else from + (hi - lo) - 1 - |cpu|;
    assert cpu[last].Written?;
  }

  lemma BlockInWindow(cpu: seq<Block>, log: seq<Transaction>, lo: nat, hi: nat, k: nat)
    requires HoldsWindow(cpu, log, lo, hi) && k < hi - lo
    ensures (Position(lo, |cpu|) + k) % |cpu| < |cpu|
    ensures cpu[(Position(lo, |cpu|) + k) % |cpu|] == Written(log[lo + k])
  {
    hide Position;
    var from := Position(lo, |cpu|);
    if from + k < |cpu| {
      Quotient(from + k, 0, |cpu|);
      assert Age(from + k, from, |cpu|) == k;
    } else {
      Quotient(from + k - |cpu|, 1, |cpu|);
      assert Age(from + k - |cpu|, from, |cpu|) == k;
    }
  }

  /** The two inner loops of `replay_al_84`. */
  method ApplyTransaction(hot: array<nat>, t: Transaction)
    requires t.Shape() && hot.Length == AL_EXTENTS_MAX
    modifies hot
    ensures hot[..] == Applied(old(hot[..]), t)
  {
    ghost var was := hot[..];
    for i := 0 to AL_CONTEXT
      invariant forall s :: 0 <= s < hot.Length ==>
                  hot[s] == if HasContext(t, s) && s < t.contextStart + i then t.context[s - t.contextStart] else was[s]
    {
      var slot := t.contextStart + i;
      if t.context[i] == LC_FREE && slot >= t.contextSize {
        continue;
      }
      if slot >= AL_EXTENTS_MAX {
        continue;
      }
      hot[slot] := t.context[i];
    }
    assert hot[..] == AfterContext(was, t);
    for i := 0 to AL_UPDATES
      invariant hot[..] == AfterUpdates(AfterContext(was, t), t, i)
    {
      var slot := t.updates[i].slot;
      if i >= t.nUpdates && slot == U16_MAX {
        continue;
      }
      if slot >= AL_EXTENTS_MAX {
        continue;
      }
      hot[slot] := t.updates[i].extent;
    }
  }

  /** The second loop of `replay_al_84`, from the oldest transaction to the newest. */
  method ApplyRange(cpu: seq<Block>, oldest: nat, newest: nat, hot: array<nat>,
                    ghost log: seq<Transaction>, ghost lo: nat, ghost hi: nat)
    requires oldest < |cpu| && newest < |cpu| && hot.Length == AL_EXTENTS_MAX
    requires forall b :: 0 <= b < |cpu| && cpu[b].Written? ==> cpu[b].t.Shape()
    modifies hot
    ensures HoldsWindow(cpu, log, lo, hi) && Bounds(cpu, |cpu|, oldest, newest, Position(lo, |cpu|))
            && (forall s :: 0 <= s < hot.Length ==> old(hot[s]) == LC_FREE) ==>
              && (forall k :: lo <= k < hi <= |log| ==> log[k].Shape())
              && lo <= hi <= |log| && hot[..] == Replayed(log, lo, hi, hot.Length)
  {
    hide Position, Age, HoldsWindow, Bounds, Applied;
    ghost var steady := HoldsWindow(cpu, log, lo, hi) && Bounds(cpu, |cpu|, oldest, newest, Position(lo, |cpu|))
                        && (forall s :: 0 <= s < hot.Length ==> hot[s] == LC_FREE);
    if steady {
      WindowStart(cpu, log, lo, hi);
      RangeIs(cpu, log, lo, hi, oldest, newest);
      assert hot[..] == seq(hot.Length, _ => LC_FREE);
    }
    var last := if newest < oldest then newest + |cpu| else newest;
    for b := oldest to last + 1
      invariant steady ==> lo + (b - oldest) <= hi && hot[..] == Replayed(log, lo, lo + (b - oldest), hot.Length)
    {
      if steady {
        BlockInWindow(cpu, log, lo, hi, b - oldest);
      }
      var idx := b % |cpu|;
      if cpu[idx].Written? {
        ApplyTransaction(hot, cpu[idx].t);
      }
    }
  }

  lemma WindowHasUpdates(cpu: seq<Block>, log: seq<Transaction>, lo: nat, hi: nat)
    requires HoldsWindow(cpu, log, lo, hi)
    ensures !NoUpdates(cpu)
  {
    hide HoldsWindow, Position;
    WindowStart(cpu, log, lo, hi);
    BlockInWindow(cpu, log, lo, hi, 0);
  }

  /** `replay_al_84`: from the ring on disk (and `ring`, its blocks in position order) to the labels of all slots. */
  method Replay(disk: seq<Block>, stripes: nat, stripeSize: nat, hot: array<nat>,
                ghost log: seq<Transaction>, ghost lo: nat, ghost hi: nat)
    returns (r: int, ring: seq<Block>)
    requires stripes > 0 && 0 < stripes * stripeSize < U32 && |disk| == stripes * stripeSize
    requires hot.Length == AL_EXTENTS_MAX
    requires forall b :: 0 <= b < |disk| && disk[b].Written? ==> disk[b].t.Shape()
    modifies hot
    ensures InPositionOrder(ring, disk, stripes, stripeSize)
    ensures r > 0 <==> !NoUpdates(ring)
    ensures r == -ENODATA <==> NoneReadable(ring)
    ensures r == 0 <==> NoUpdates(ring) && AtMostFirstBad(ring) && !NoneReadable(ring)
    ensures r == -EINVAL <==> NoUpdates(ring) && !AtMostFirstBad(ring) && !NoneReadable(ring)
    ensures r <= 0 ==> hot[..] == old(hot[..])
    ensures HoldsWindow(ring, log, lo, hi) && (forall s :: 0 <= s < hot.Length ==> old(hot[s]) == LC_FREE) ==>
              && r > 0
              && (forall k :: lo <= k < hi <= |log| ==> log[k].Shape())
              && lo <= hi <= |log| && hot[..] == Replayed(log, lo, hi, hot.Length)
  {
    hide Position, Age, Bounds, Applied, AlStripes.Block, HoldsWindow, NoUpdates, NoneReadable, AtMostFirstBad, Bad;
    ring := ReadRing(disk, stripes, stripeSize);
    if HoldsWindow(ring, log, lo, hi) {
      WindowStart(ring, log, lo, hi);
      WindowHasUpdates(ring, log, lo, hi);
    }
    UnreadableHasNone(ring);
    var valid, updates, oldest, newest := FindRange(ring, log, lo, hi);
    if valid == 0 {
      return -ENODATA, ring;
    }
    if updates == 0 {
      BadFirst(ring);
      if valid == |ring| || (ring[0].Invalid? && valid == |ring| - 1) {
        return 0, ring;
      }
      return -EINVAL, ring;
    }
    ApplyRange(ring, oldest, newest, hot, log, lo, hi);
    r := updates;
  }
}

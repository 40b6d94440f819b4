/** `mask &= (1 << bm_max_peers) - 1`: which bitmap slots a 32-bit shift leaves. */
module PeerMask {
  import opened Arithmetic

  const INT_RANGE := 0x1_0000_0000

  /** The 32-bit `int` with the low bits of `x`. */
  function AsInt(x: int): (r: int)
    ensures -INT_RANGE / 2 <= r < INT_RANGE / 2
  {
    (x + INT_RANGE / 2) % INT_RANGE - INT_RANGE / 2
  }

  lemma AsIntKeepsLowBits(x: int)
    ensures (x - AsInt(x)) % INT_RANGE == 0
  {
  }

  /** `(1 << n) - 1`, as a machine computes it that takes the shift count modulo 32. */
  function SlotMask(n: nat): int {
    AsInt(AsInt(Pow2(n % 32)) - 1)
  }

  /** Bit `q` of `v`, extended with its sign. */
  predicate HasBit(v: int, q: nat) {
    v / Pow2(q) % 2 == 1
  }

  /** The slots left in `mask`. */
  function Selected(mask: set<nat>, slots: nat): set<nat> {
    set q | q in mask && HasBit(SlotMask(slots), q)
  }

  lemma {:induction false} Pow2Below(n: nat)
    requires n <= 31
    ensures Pow2(n) <= INT_RANGE / 2
    decreases 31 - n
  {
    if n < 31 {
      Pow2Below(n + 1);
    } else {
      assert Pow2(10) == 0x400 && Pow2(20) == 0x10_0000 && Pow2(31) == 0x8000_0000;
    }
  }

  lemma Odd(n: nat)
    requires n > 0
    ensures (Pow2(n) - 1) % 2 == 1
  {
  }

  /** The low `n` bits are set in 2^n - 1, and no others. */
  lemma LowBits(n: nat, q: nat)
    ensures HasBit(Pow2(n) - 1, q) <==> q < n
  {
    hide Pow2;
    if q < n {
      var a, z := Pow2(n - q), Pow2(q);
      Pow2Sum(n - q, q);
      Distribute(a - 1, z);
      Quotient(z - 1, a - 1, z);
      Odd(n - q);
    } else {
      var a, z := Pow2(n), Pow2(q);
      Pow2Sum(n, q - n);
      MulMono(1, Pow2(q - n), a);
      Quotient(a - 1, 0, z);
    }
  }

  lemma Wraps(p: nat)
    requires 0 < p <= INT_RANGE / 2
    ensures AsInt(AsInt(p) - 1) == p - 1
  {
  }

  /** 31 slots still work, although the shift overflows: the subtraction wraps back. With 32 slots nothing is left. */
  lemma SlotMaskIs(n: nat)
    requires n <= 32
    ensures SlotMask(n) == if n < 32 then Pow2(n) - 1 else 0
  {
    hide AsInt, Pow2;
    Pow2Below(n % 32);
    Wraps(Pow2(n % 32));
    Pow2Zero();
  }

  lemma Pow2Zero()
    ensures Pow2(0) == 1
  {
  }

  lemma SelectedIs(mask: set<nat>, slots: nat)
    requires slots <= 32
    ensures forall q :: q in Selected(mask, slots) <==> q in mask && q < slots && slots < 32
  {
    hide HasBit, SlotMask;
    SlotMaskIs(slots);
    forall q: nat ensures HasBit(SlotMask(slots), q) <==> q < slots && slots < 32 {
      if slots < 32 {
        LowBits(slots, q);
      } else {
        LowBits(0, q);
      }
    }
  }

  /** Every masked peer is selected exactly if there are fewer than 32 slots, or none is masked. */
  lemma AllSelected(mask: set<nat>, slots: nat)
    requires slots <= 32
    ensures (forall q :: q in mask && q < slots ==> q in Selected(mask, slots)) <==>
              slots < 32 || forall q :: q in mask ==> q >= slots
  {
    hide Selected;
    SelectedIs(mask, slots);
  }
}

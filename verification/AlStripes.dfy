/** Where on disk the activity-log ring puts transaction `n`. */
module AlStripes {
  import opened Arithmetic

  /** `check_activity_log_stripe_size`: accepted stripes, stripe size and ring size in 4 KiB blocks, or nothing. */
  datatype Layout = Rejected | Accepted(stripes: nat, stripeSize: nat, size: nat)

  function CheckStripeSize(stripes: nat, stripeSize: nat): (r: Layout)
    requires stripes < U32 && stripeSize < U32
  {
    var s := if stripes == 0 && stripeSize == 0 then 1 else stripes;
    var z := if stripes == 0 && stripeSize == 0 then 8 else stripeSize;
    if s == 0 || z == 0 then Rejected
    else
      // the product is formed in 32 bits before it is widened
      var size := s * z % U32;
      if size > 16 * 1024 * 1024 / 4 || size < 8 then Rejected
      else Accepted(s, z, size)
  }

  /**
   * Which layouts are accepted, and what becomes of them: the default of one stripe of eight blocks where nothing is
   * set, and else, as long as the product does not overflow, every layout of 32 KiB to 16 GiB.
   */
  lemma AcceptedExactly(stripes: nat, stripeSize: nat)
    requires stripes < U32 && stripeSize < U32
    ensures CheckStripeSize(0, 0) == Accepted(1, 8, 8)
    ensures CheckStripeSize(stripes, stripeSize).Accepted? && (stripes, stripeSize) != (0, 0) <==>
              stripes > 0 && stripeSize > 0 && 0x8000 <= 4096 * (stripes * stripeSize % U32) <= 0x4_0000_0000
    ensures stripes * stripeSize < U32 && (stripes, stripeSize) != (0, 0) ==>
              CheckStripeSize(stripes, stripeSize)
              == if 8 <= stripes * stripeSize <= 4 * 1024 * 1024
                 then Accepted(stripes, stripeSize, stripes * stripeSize) else Rejected
  {
    if stripes * stripeSize < U32 {
      SmallModulo(stripes * stripeSize);
    }
  }

  /** `al_tr_number_to_on_disk_sector` up to the block number, with the source's 32-bit arithmetic. */
  function Block(stripes: nat, stripeSize: nat, t: nat): nat
    requires stripes > 0
  {
    (t % stripes * stripeSize + t / stripes) % U32
  }

  ghost predicate Reached(stripes: nat, stripeSize: nat, size: nat, b: nat)
    requires stripes > 0
  {
    exists t: nat :: t < size && Block(stripes, stripeSize, t) == b
  }

  /** No two of the ring's positions share a block, and no block lies outside the log. */
  ghost predicate Bijective(stripes: nat, stripeSize: nat, size: nat)
    requires stripes > 0
  {
    && (forall t: nat :: t < size ==> Block(stripes, stripeSize, t) < size)
    && (forall t: nat, u: nat :: t < u < size ==> Block(stripes, stripeSize, t) != Block(stripes, stripeSize, u))
    && (forall b: nat :: b < size ==> Reached(stripes, stripeSize, size, b))
  }

  /** A pair (stripe, row) read row by row stays below the number of pairs. */
  lemma PairBelow(x: nat, y: nat, s: nat, z: nat)
    requires x < s && y < z
    ensures x * z + y < s * z
  {
    MulMono(x + 1, s, z);
    Distribute(x, z);
  }

  lemma RowBelow(t: nat, s: nat, z: nat)
    requires s > 0 && t < s * z
    ensures t / s < z
  {
    var y := t / s;
    DivMod(t, s);
    if y >= z {
      MulMono(z, y, s);
    }
  }

  /** Without overflow, a position is a (stripe, row) pair and the block number is that pair read row-first. */
  lemma BlockSmall(stripes: nat, stripeSize: nat, t: nat)
    requires stripes > 0 && t < stripes * stripeSize < U32
    ensures t % stripes < stripes && t / stripes < stripeSize
    ensures Block(stripes, stripeSize, t) == t % stripes * stripeSize + t / stripes < stripes * stripeSize
  {
    RowBelow(t, stripes, stripeSize);
    PairBelow(t % stripes, t / stripes, stripes, stripeSize);
    SmallModulo(t % stripes * stripeSize + t / stripes);
  }

  lemma SamePair(s: nat, z: nat, t: nat, u: nat)
    requires s > 0 && t / s < z && u / s < z
    requires t % s * z + t / s == u % s * z + u / s
    ensures t == u
  {
    PairUnique(t % s, t / s, u % s, u / s, z);
    DivMod(t, s);
    DivMod(u, s);
  }

  lemma BlockInjective(stripes: nat, stripeSize: nat, t: nat, u: nat)
    requires stripes > 0 && t < stripes * stripeSize < U32 && u < stripes * stripeSize
    requires Block(stripes, stripeSize, t) == Block(stripes, stripeSize, u)
    ensures t == u
  {
    hide Block;
    BlockSmall(stripes, stripeSize, t);
    BlockSmall(stripes, stripeSize, u);
    SamePair(stripes, stripeSize, t, u);
  }

  /** The position whose block is `b`: the pair of `b` read the other way. */
  function PositionOf(stripes: nat, stripeSize: nat, b: nat): nat
    requires stripeSize > 0
  {
    b % stripeSize * stripes + b / stripeSize
  }

  lemma BlockSurjective(stripes: nat, stripeSize: nat, b: nat)
    requires stripes > 0 && stripeSize > 0 && b < stripes * stripeSize < U32
    ensures PositionOf(stripes, stripeSize, b) < stripes * stripeSize
    ensures Block(stripes, stripeSize, PositionOf(stripes, stripeSize, b)) == b
  {
    hide Block;
    var x, y := b / stripeSize, b % stripeSize;
    DivMod(b, stripeSize);
    RowBelow(b, stripeSize, stripes);
    PairBelow(y, x, stripeSize, stripes);
    Quotient(x, y, stripes);
    BlockSmall(stripes, stripeSize, y * stripes + x);
  }

  lemma RoundUp(n: nat, z: nat) returns (t: nat)
    requires 2 <= z < n
    ensures n <= t * z < n + z && t < n
  {
    t := (n + z - 1) / z;
    DivMod(n + z - 1, z);
    if t >= n {
      MulMono(n, t, z);
      MulMono(2, z, n);
    }
  }

  lemma StripeStart(stripes: nat, stripeSize: nat, t: nat)
    requires t * stripeSize < U32 <= stripes * stripeSize
    ensures stripes > 0 && Block(stripes, stripeSize, t) == t * stripeSize
  {
    if t >= stripes {
      MulMono(stripes, t, stripeSize);
    }
    Quotient(t, 0, stripes);
    SmallModulo(t * stripeSize);
  }

  /** An overflowing product that is accepted sends some position outside the log. */
  lemma OverflowEscapes(stripes: nat, stripeSize: nat, size: nat) returns (t: nat)
    requires 2 <= stripes < U32 && 2 <= stripeSize < U32 && stripes * stripeSize >= U32
    requires 8 <= size <= 4194304
    ensures t < size && Block(stripes, stripeSize, t) >= size
  {
    hide Block;
    if stripeSize >= size {
      t := 1;
      StripeStart(stripes, stripeSize, 1);
    } else {
      // the first stripe position whose start is past the log
      t := RoundUp(size, stripeSize);
      StripeStart(stripes, stripeSize, t);
    }
  }

  lemma SmallBijective(s: nat, z: nat)
    requires s > 0 && z > 0 && s * z < U32
    ensures Bijective(s, z, s * z)
  {
    hide Block;
    forall t: nat | t < s * z ensures Block(s, z, t) < s * z {
      BlockSmall(s, z, t);
    }
    forall t: nat, u: nat | t < u < s * z ensures Block(s, z, t) != Block(s, z, u) {
      if Block(s, z, t) == Block(s, z, u) {
        BlockInjective(s, z, t, u);
      }
    }
    forall b: nat | b < s * z ensures Reached(s, z, s * z, b) {
      BlockSurjective(s, z, b);
    }
  }

  lemma BothAboveOne(s: nat, z: nat)
    requires s < U32 && z < U32 && s * z >= U32
    ensures 2 <= s && 2 <= z
  {
    if s <= 1 {
      MulMono(s, 1, z);
    } else if z <= 1 {
      MulMono(z, 1, s);
    }
  }

  /** The striped ring is a bijection onto the log area exactly when the 32-bit product does not overflow. */
  lemma StripesBijective(stripes: nat, stripeSize: nat)
    requires stripes < U32 && stripeSize < U32
    requires CheckStripeSize(stripes, stripeSize).Accepted?
    ensures var l := CheckStripeSize(stripes, stripeSize);
      && l.stripes > 0
      && (Bijective(l.stripes, l.stripeSize, l.size) <==> stripes * stripeSize < U32)
  {
    hide Block;
    var l := CheckStripeSize(stripes, stripeSize);
    if stripes * stripeSize < U32 {
      SmallModulo(l.stripes * l.stripeSize);
      SmallBijective(l.stripes, l.stripeSize);
    } else {
      BothAboveOne(stripes, stripeSize);
      var t := OverflowEscapes(stripes, stripeSize, l.size);
    }
  }

  /** An accepted configuration whose ring leaves the log: 65537 stripes of 65536 blocks. */
  lemma OverflowAccepted()
    ensures CheckStripeSize(65537, 65536) == Accepted(65537, 65536, 65536)
    ensures !Bijective(65537, 65536, 65536)
  {
    StripesBijective(65537, 65536);
  }
}

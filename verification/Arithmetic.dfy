/** Quotients and remainders by a divisor that is not a constant. */
module Arithmetic {

  const U32 := 0x1_0000_0000
  const U64 := 0x1_0000_0000_0000_0000

  lemma DivMod(t: nat, d: nat)
    requires d > 0
    ensures t == t / d * d + t % d && t % d < d
  {
  }

  lemma MulMono(a: nat, b: nat, c: nat)
    requires a <= b
    ensures a * c <= b * c
  {
  }

  lemma Distribute(a: int, z: int)
    ensures (a + 1) * z == a * z + z
  {
  }

  lemma Associate(a: nat, b: nat, c: nat)
    ensures a * (b * c) == a * b * c
  {
  }

  lemma DistributeSum(a: nat, b: nat, c: nat)
    ensures (a + b) * c == a * c + b * c
  {
  }

  /** A number has one quotient and one remainder. */
  lemma PairUnique(a: nat, b: nat, c: nat, d: nat, z: nat)
    requires b < z && d < z && a * z + b == c * z + d
    ensures a == c && b == d
  {
    if a < c {
      MulMono(a + 1, c, z);
      Distribute(a, z);
    } else if c < a {
      MulMono(c + 1, a, z);
      Distribute(c, z);
    }
  }

  lemma Quotient(x: nat, y: nat, d: nat)
    requires x < d
    ensures (y * d + x) / d == y && (y * d + x) % d == x
  {
    var t := y * d + x;
    DivMod(t, d);
    PairUnique(t / d, t % d, y, x, d);
  }

  lemma SmallModulo(n: nat)
    requires n < U32
    ensures n % U32 == n
  {
  }

  lemma StepModulo(k: nat, w: nat)
    requires w > 0
    ensures (k + 1) % w == if k % w == w - 1 then 0 else k % w + 1
  {
    var q, r := k / w, k % w;
    DivMod(k, w);
    if r == w - 1 {
      Distribute(q, w);
      Quotient(0, q + 1, w);
    } else {
      Quotient(r + 1, q, w);
    }
  }

  /** Some number among any `w` consecutive ones has remainder `r`. */
  lemma HitRemainder(lo: nat, w: nat, r: nat) returns (k: nat)
    requires r < w
    ensures lo <= k < lo + w && k % w == r
  {
    var q, c := lo / w, lo % w;
    DivMod(lo, w);
    if c <= r {
      k := q * w + r;
      Quotient(r, q, w);
    } else {
      k := (q + 1) * w + r;
      Distribute(q, w);
      Quotient(r, q + 1, w);
    }
  }

  function Pow2(n: nat): (r: nat)
    ensures r > 0
  {
    if n == 0 then 1 else 2 * Pow2(n - 1)
  }

  lemma {:induction false} Pow2Sum(m: nat, n: nat)
    ensures Pow2(m + n) == Pow2(m) * Pow2(n)
  {
    if n > 0 {
      Pow2Sum(m, n - 1);
      Associate(Pow2(m), 2, Pow2(n - 1));
    }
  }
}

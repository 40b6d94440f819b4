/** 32-bit little-endian bitmap words, given by their 32 bits (bit 0 first). */
module Words {

  type Word = w: seq<bool> | |w| == 32 witness seq(32, _ => false)

  const ZERO: Word := seq(32, _ => false)
  const ONES: Word := seq(32, _ => true)

  function Not(w: Word): Word {
    seq(32, i requires 0 <= i < 32 => !w[i])
  }

  function And(v: Word, w: Word): Word {
    seq(32, i requires 0 <= i < 32 => v[i] && w[i])
  }

  function Or(v: Word, w: Word): Word {
    seq(32, i requires 0 <= i < 32 => v[i] || w[i])
  }

  /** `(1 << n) - 1`; shifting by the full width is undefined in C, hence the bound. */
  function LowMask(n: nat): Word
    requires n < 32
  {
    seq(32, i => i < n)
  }

  /** `hweight32`, for any run of bits. */
  function Weight(bits: seq<bool>): nat {
    if bits == [] then 0
    else Weight(bits[..|bits| - 1]) + if bits[|bits| - 1] then 1 else 0
  }
}

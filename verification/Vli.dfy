/** The variable-length integer code for run lengths: a prefix names one of ten levels, data bits follow. Bits are
    listed in stream order, least significant first. */
module Vli {
  import opened Arithmetic

  const LEVELS := 10

  /** The prefix of a level, and its number of data bits. */
  function Prefix(i: nat): (p: seq<bool>)
    requires i < LEVELS
    ensures 1 <= |p| <= 8
  {
    if i == 0 then [false]
    else if i == 1 then [true, false]
    else if i == 2 then [true, true, false]
    else if i == 3 then [true, true, true, false]
    else if i == 4 then [true, true, true, true, false]
    else if i == 5 then [true, true, true, true, true, false]
    else if i == 6 then [true, true, true, true, true, true, false, false]
    else if i == 7 then [true, true, true, true, true, true, true, false]
    else if i == 8 then [true, true, true, true, true, true, false, true]
    else [true, true, true, true, true, true, true, true]
  }

  function DataBits(i: nat): (n: nat)
    requires i < LEVELS
    ensures 1 <= n <= 56 && |Prefix(i)| + n <= 64
  {
    if i == 0 then 1 else if i == 1 then 1 else if i == 2 then 2 else if i == 3 then 3 else if i == 4 then 5
    else if i == 5 then 8 else if i == 6 then 13 else if i == 7 then 21 else if i == 8 then 34 else 56
  }

  /** The smallest number a level encodes. */
  function Least(i: nat): nat
    requires i <= LEVELS
  {
    if i == 0 then 1 else Least(i - 1) + Pow2(DataBits(i - 1))
  }

  function ToBits(v: nat, n: nat): (bits: seq<bool>)
    ensures |bits| == n
  {
    if n == 0 then [] else [v % 2 == 1] + ToBits(v / 2, n - 1)
  }

  function FromBits(bits: seq<bool>): nat {
    if bits == [] then 0 else (if bits[0] then 1 else 0) + 2 * FromBits(bits[1..])
  }

  datatype Code = TooLarge | Bits(word: seq<bool>)

  /** `__vli_encode_bits` from level `i` on. */
  function EncodeFrom(x: nat, i: nat): Code
    requires i <= LEVELS && x >= Least(i)
    decreases LEVELS - i
  {
    if i == LEVELS then TooLarge
    else if x < Least(i + 1) then Bits(Prefix(i) + ToBits(x - Least(i), DataBits(i)))
    else EncodeFrom(x, i + 1)
  }

  function Encode(x: nat): Code
    requires x > 0
  {
    EncodeFrom(x, 0)
  }

  /** `vli_decode_bits` from level `i` on: the number and the bits consumed. */
  function DecodeFrom(window: seq<bool>, i: nat): (nat, nat)
    requires |window| == 64 && i <= LEVELS
    decreases LEVELS - i
  {
    if i == LEVELS then (0, 0)
    else
      var b := |Prefix(i)|;
      if window[..b] == Prefix(i) then (FromBits(window[b..b + DataBits(i)]) + Least(i), b + DataBits(i))
      else DecodeFrom(window, i + 1)
  }

  function Decode(window: seq<bool>): (nat, nat)
    requires |window| == 64
  {
    DecodeFrom(window, 0)
  }

  lemma {:induction false} BitsRoundTrip(v: nat, n: nat)
    requires v < Pow2(n)
    ensures FromBits(ToBits(v, n)) == v
  {
    if n > 0 {
      BitsRoundTrip(v / 2, n - 1);
      assert ToBits(v, n)[1..] == ToBits(v / 2, n - 1);
    }
  }

  /** No level's prefix begins with that of an earlier one. */
  lemma PrefixFree(i: nat, j: nat)
    requires i < j < LEVELS
    ensures |Prefix(i)| <= |Prefix(j)| && Prefix(j)[..|Prefix(i)|] != Prefix(i)
  {
    if i <= 5 {
      assert !Prefix(i)[i] && Prefix(j)[i] && Prefix(j)[..|Prefix(i)|][i];
    } else {
      assert Prefix(j)[..8] == Prefix(j);
      assert Prefix(i)[6] != Prefix(j)[6] || Prefix(i)[7] != Prefix(j)[7];
    }
  }

  /** Every bit pattern begins with some level's prefix, so decoding never runs off the table. */
  lemma SomeLevel(window: seq<bool>) returns (i: nat)
    requires |window| == 64
    ensures i < LEVELS && window[..|Prefix(i)|] == Prefix(i)
  {
    if !window[0] { i := 0; }
    else if !window[1] { i := 1; }
    else if !window[2] { i := 2; }
    else if !window[3] { i := 3; }
    else if !window[4] { i := 4; }
    else if !window[5] { i := 5; }
    else if !window[6] && !window[7] { i := 6; }
    else if window[6] && !window[7] { i := 7; }
    else if !window[6] { i := 8; }
    else { i := 9; }
  }

  lemma {:induction false} DecodeLevel(window: seq<bool>, i: nat, l: nat)
    requires |window| == 64 && i <= l < LEVELS && window[..|Prefix(l)|] == Prefix(l)
    ensures DecodeFrom(window, i)
         == (FromBits(window[|Prefix(l)|..|Prefix(l)| + DataBits(l)]) + Least(l), |Prefix(l)| + DataBits(l))
    decreases l - i
  {
    hide Prefix, DataBits, FromBits, Least;
    if i < l {
      PrefixFree(i, l);
      assert window[..|Prefix(i)|] == window[..|Prefix(l)|][..|Prefix(i)|];
      DecodeLevel(window, i + 1, l);
    }
  }

  /** Decoding consumes at least two and at most 64 bits and gives a positive number. */
  lemma DecodeTotal(window: seq<bool>)
    requires |window| == 64
    ensures Decode(window).0 > 0 && 2 <= Decode(window).1 <= 64
  {
    hide Prefix, DataBits, FromBits;
    var i := SomeLevel(window);
    DecodeLevel(window, 0, i);
    LeastPositive(i);
  }

  lemma {:induction false} LeastPositive(i: nat)
    requires i <= LEVELS
    ensures Least(i) > 0
  {
    if i > 0 {
      LeastPositive(i - 1);
    }
  }

  /** The level an encodable number is put on. */
  lemma {:induction false} EncodeLevel(x: nat, i: nat) returns (l: nat)
    requires i <= LEVELS && Least(i) <= x < Least(LEVELS)
    ensures i <= l < LEVELS && Least(l) <= x < Least(l + 1)
    ensures EncodeFrom(x, i) == Bits(Prefix(l) + ToBits(x - Least(l), DataBits(l)))
    decreases LEVELS - i
  {
    hide Prefix, DataBits, ToBits, Least;
    if x < Least(i + 1) {
      l := i;
    } else {
      l := EncodeLevel(x, i + 1);
    }
  }

  /** A code word decodes to its number, whatever follows it in the stream. */
  lemma RoundTrip(x: nat, rest: seq<bool>)
    requires 0 < x < Least(LEVELS)
    ensures Encode(x).Bits? && 2 <= |Encode(x).word| <= 64
    ensures |Encode(x).word| + |rest| == 64 ==> Decode(Encode(x).word + rest) == (x, |Encode(x).word|)
  {
    hide Prefix, DataBits, ToBits, FromBits, DecodeFrom, EncodeFrom, Least, Pow2;
    LeastZero();
    var l := EncodeLevel(x, 0);
    var p, d := Prefix(l), ToBits(x - Least(l), DataBits(l));
    var w := p + d;
    assert Encode(x).word == w;
    if |w| + |rest| == 64 {
      var window := w + rest;
      assert window[..|p|] == p && window[|p|..|p| + |d|] == d;
      DecodeLevel(window, 0, l);
      LeastStep(l);
      BitsRoundTrip(x - Least(l), DataBits(l));
    }
  }

  lemma LeastZero()
    ensures Least(0) == 1
  {
  }

  lemma LeastStep(l: nat)
    requires l < LEVELS
    ensures Least(l + 1) == Least(l) + Pow2(DataBits(l))
  {
  }

  /** The first number of each level, one above the greatest value of the level before. */
  lemma LevelTable()
    ensures Least(1) == 0x2 + 1 && Least(2) == 0x4 + 1 && Least(3) == 0x8 + 1 && Least(4) == 0x10 + 1
    ensures Least(5) == 0x30 + 1
    ensures Least(6) == 0x130 + 1 && Least(7) == 0x2130 + 1 && Least(8) == 0x20_2130 + 1
    ensures Least(9) == 0x4_0020_2130 + 1
  {
    assert Pow2(8) == 0x100 && Pow2(13) == 0x2000 && Pow2(21) == 0x20_0000 && Pow2(34) == 0x4_0000_0000;
  }

  lemma Pow2Of56()
    ensures Pow2(56) == 0x100_0000_0000_0000
  {
    assert Pow2(12) == 0x1000 && Pow2(24) == 0x100_0000 && Pow2(36) == 0x10_0000_0000 && Pow2(48) == 0x1_0000_0000_0000;
  }

  /** The largest run length that has a code is above 2^56. */
  lemma Largest()
    ensures Least(LEVELS) > 0x100_0000_0000_0000
  {
    hide Pow2;
    Pow2Of56();
    LeastPositive(9);
    LeastStep(9);
  }
}

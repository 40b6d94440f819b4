/** Runs of equal bits and the bit stream that carries their lengths. */
module RunLengths {
  import opened Arithmetic
  import opened Vli
  import opened Options

  /** `runs` are the lengths of the alternating runs of `src` from bit `from` on, the first one of value `v`. */
  ghost predicate RunsOf(src: seq<bool>, from: nat, v: bool, runs: seq<nat>)
    decreases |runs|
  {
    runs != [] ==>
      && 0 < runs[0] && from + runs[0] <= |src|
      && (forall b :: from <= b < from + runs[0] ==> src[b] == v)
      && RunsOf(src, from + runs[0], !v, runs[1..])
  }

  function Sum(runs: seq<nat>): nat {
    if runs == [] then 0 else runs[0] + Sum(runs[1..])
  }

  /** The value of the run after `n` runs. */
  function Polarity(v: bool, n: nat): bool {
    if n % 2 == 0 then v else !v
  }

  /** The concatenated code words. */
  ghost function Stream(runs: seq<nat>): seq<bool>
    requires Codable(runs)
    decreases |runs|
  {
    if runs == [] then [] else Encode(runs[0]).word + Stream(runs[1..])
  }

  ghost predicate Codable(runs: seq<nat>) {
    forall i :: 0 <= i < |runs| ==> 0 < runs[i] && Encode(runs[i]).Bits?
  }

  /** One more run at the end. */
  lemma {:induction false} AppendRun(src: seq<bool>, from: nat, v: bool, runs: seq<nat>, r: nat)
    requires RunsOf(src, from, v, runs)
    requires var at := from + Sum(runs); 0 < r && at + r <= |src| && forall b :: at <= b < at + r ==>
               src[b] == Polarity(v, |runs|)
    ensures RunsOf(src, from, v, runs + [r]) && Sum(runs + [r]) == Sum(runs) + r
    decreases |runs|
  {
    if runs == [] {
      assert [r][1..] == [];
      assert runs + [r] == [r];
    } else {
      assert (runs + [r])[1..] == runs[1..] + [r];
      AppendRun(src, from + runs[0], !v, runs[1..], r);
    }
  }

  lemma {:induction false} AppendStream(runs: seq<nat>, r: nat)
    requires Codable(runs) && 0 < r && Encode(r).Bits?
    ensures Codable(runs + [r]) && Stream(runs + [r]) == Stream(runs) + Encode(r).word
  {
    hide Encode;
    if runs == [] {
      assert [r][1..] == [];
      assert runs + [r] == [r];
    } else {
      assert (runs + [r])[1..] == runs[1..] + [r];
      AppendStream(runs[1..], r);
    }
  }

  lemma {:induction false} RunsCodable(src: seq<bool>, from: nat, v: bool, runs: seq<nat>)
    requires RunsOf(src, from, v, runs) && |src| < Least(LEVELS)
    ensures Codable(runs) && (runs != [] ==> from + Sum(runs) <= |src|)
    decreases |runs|
  {
    hide Least;
    if runs != [] {
      RunsCodable(src, from + runs[0], !v, runs[1..]);
      RoundTrip(runs[0], []);
      forall i | 0 <= i < |runs| ensures 0 < runs[i] && Encode(runs[i]).Bits? {
        if i > 0 {
          assert runs[i] == runs[1..][i - 1];
        }
      }
    }
  }

  function Zeros(n: nat): (z: seq<bool>)
    ensures |z| == n && forall i :: 0 <= i < n ==> !z[i]
  {
    seq(n, _ => false)
  }

  /** The next 64 bits of a stream, filled up with zeros. */
  function Ahead(bits: seq<bool>): (r: seq<bool>)
    ensures |r| == 64
  {
    if |bits| < 64 then bits + Zeros(64 - |bits|) else bits[..64]
  }

  /** The run lengths that a stream of bits decodes to; none if it ends within a code word. */
  ghost function Lengths(bits: seq<bool>): Option<seq<nat>>
    decreases |bits|
  {
    if bits == [] then Some([])
    else
      var (rl, n) := Decode(Ahead(bits));
      DecodeTotal(Ahead(bits));
      if n > |bits| then None
      else
        match Lengths(bits[n..])
        case None => None
        case Some(more) => Some([rl] + more)
  }

  /** Positions in the bitmap have 64 bits. */
  function Wrap(x: int): (r: nat)
    ensures r < U64
  {
    x % U64
  }

  lemma WrapSmall(x: nat)
    requires x < U64
    ensures Wrap(x) == x
  {
  }

  lemma WrapAdd(x: nat, y: int)
    ensures Wrap(Wrap(x) + y) == Wrap(x + y)
  {
  }

  lemma Alternates(v: bool, n: nat)
    ensures Polarity(v, n + 1) == !Polarity(v, n)
  {
  }

  /** Where run `i` ends. */
  function EndOf(runs: seq<nat>, i: nat): nat
    requires i < |runs|
  {
    Sum(runs[..i + 1])
  }

  /** What ends `end` bits after position `from` ends past the last of `n` bits. */
  predicate Past(from: nat, end: nat, n: nat) {
    Wrap(from + end - 1) >= n
  }

  /** Some run of set bits, from position `from` on, ends past the last of `n` bits. */
  ghost predicate Overruns(from: nat, v: bool, runs: seq<nat>, n: nat) {
    exists i :: 0 <= i < |runs| && Polarity(v, i) && Past(from, EndOf(runs, i), n)
  }

  lemma {:induction false} SumAppend(runs: seq<nat>, r: nat)
    ensures Sum(runs + [r]) == Sum(runs) + r
  {
    if runs == [] {
      assert [r][1..] == [];
      assert runs + [r] == [r];
    } else {
      assert (runs + [r])[1..] == runs[1..] + [r];
      SumAppend(runs[1..], r);
    }
  }

  /** `done` are the first run lengths of `bits`, and `left` is the rest of the stream. */
  ghost predicate Decoding(bits: seq<bool>, done: seq<nat>, left: seq<bool>) {
    match Lengths(left)
    case None => Lengths(bits).None?
    case Some(more) => Lengths(bits) == Some(done + more)
  }

  lemma DecodingMore(bits: seq<bool>, done: seq<nat>, ahead: seq<bool>, rest: seq<bool>)
    requires Decoding(bits, done, ahead + rest) && ahead != [] && |ahead| <= 64 && (rest != [] ==> |ahead| == 64)
    ensures var (rl, n) := Decode(ahead + Zeros(64 - |ahead|));
      if n > |ahead| then Lengths(bits).None?
      else
        && Decoding(bits, done + [rl], ahead[n..] + rest)
        && (Lengths(bits).Some? ==> |done| < |Lengths(bits).value| && Lengths(bits).value[..|done| + 1] == done + [rl])
  {
    hide Decode;
    var left := ahead + rest;
    var z := Zeros(64 - |ahead|);
    assert Ahead(left) == ahead + z;
    var (rl, n) := Decode(ahead + z);
    DecodeTotal(ahead + z);
    assert n > |left| <==> n > |ahead|;
    if n <= |ahead| {
      assert left[n..] == ahead[n..] + rest;
      if Lengths(left[n..]).Some? {
        var more := Lengths(left[n..]).value;
        assert done + ([rl] + more) == done + [rl] + more;
      }
    }
  }

  lemma SameEnds(runs: seq<nat>, r: nat, i: nat)
    requires i <= |runs|
    ensures EndOf(runs + [r], i) == if i < |runs| then EndOf(runs, i) else Sum(runs) + r
  {
    var all := runs + [r];
    if i < |runs| {
      assert all[..i + 1] == runs[..i + 1];
    } else {
      assert all[..i + 1] == all;
      SumAppend(runs, r);
    }
  }

  /** No run of set bits so far ends past the end; one more. */
  lemma OverrunsMore(from: nat, v: bool, runs: seq<nat>, r: nat, n: nat)
    requires !Overruns(from, v, runs, n)
    ensures Overruns(from, v, runs + [r], n) <==> Polarity(v, |runs|) && Past(from, Sum(runs) + r, n)
  {
    hide Past, Polarity, Sum, EndOf;
    var all, m := runs + [r], |runs|;
    SameEnds(runs, r, m);
    if i :| 0 <= i < |all| && Polarity(v, i) && Past(from, EndOf(all, i), n) {
      SameEnds(runs, r, i);
    }
  }

  lemma OverrunsPrefix(from: nat, v: bool, runs: seq<nat>, m: nat, n: nat)
    requires m <= |runs| && Overruns(from, v, runs[..m], n)
    ensures Overruns(from, v, runs, n)
  {
    hide Past, Polarity, Sum;
    var i :| 0 <= i < m && Polarity(v, i) && Past(from, EndOf(runs[..m], i), n);
    assert runs[..m][..i + 1] == runs[..i + 1];
    assert EndOf(runs, i) == EndOf(runs[..m], i);
  }

  /** How far decoding has come: no run of set bits ended past the end; the next one, of value `v'`, starts at `s`. */
  ghost predicate Halfway(bits: seq<bool>, from: nat, v: bool, n: nat, done: seq<nat>, left: seq<bool>, s: nat,
                          v': bool) {
    && Decoding(bits, done, left) && !Overruns(from, v, done, n)
    && s == Wrap(from + Sum(done)) && v' == Polarity(v, |done|)
  }

  /** The stream ends within a code word, or a run of set bits ends past the last of `n` bits. */
  ghost predicate Broken(bits: seq<bool>, from: nat, v: bool, n: nat) {
    Lengths(bits).None? || Overruns(from, v, Lengths(bits).value, n)
  }

  lemma HalfwayStart(bits: seq<bool>, from: nat, v: bool, n: nat)
    requires from < U64
    ensures Halfway(bits, from, v, n, [], bits, from, v)
  {
    hide Lengths;
    if Lengths(bits).Some? {
      assert [] + Lengths(bits).value == Lengths(bits).value;
    }
  }

  /** One run further, unless it breaks the stream. */
  lemma HalfwayMore(bits: seq<bool>, from: nat, v: bool, n: nat, done: seq<nat>, ahead: seq<bool>, rest: seq<bool>,
                    s: nat, v': bool)
    requires Halfway(bits, from, v, n, done, ahead + rest, s, v')
    requires ahead != [] && |ahead| <= 64 && (rest != [] ==> |ahead| == 64)
    ensures var (rl, m) := Decode(ahead + Zeros(64 - |ahead|));
      if (v' && Wrap(s + rl - 1) >= n) || m > |ahead| then Broken(bits, from, v, n)
      else Halfway(bits, from, v, n, done + [rl], ahead[m..] + rest, Wrap(s + rl), !v')
  {
    hide Decode, Lengths, Decoding, Overruns, Wrap, Polarity, Sum, Zeros;
    var (rl, m) := Decode(ahead + Zeros(64 - |ahead|));
    DecodingMore(bits, done, ahead, rest);
    OverrunsMore(from, v, done, rl, n);
    SumAppend(done, rl);
    Alternates(v, |done|);
    WrapAdd(from + Sum(done), rl - 1);
    WrapAdd(from + Sum(done), rl);
    if v' && Wrap(s + rl - 1) >= n && m <= |ahead| && Lengths(bits).Some? {
      OverrunsPrefix(from, v, Lengths(bits).value, |done| + 1, n);
    }
  }

  lemma NoLengths()
    ensures Lengths([]) == Some([])
  {
  }

  lemma HalfwayEnd(bits: seq<bool>, from: nat, v: bool, n: nat, done: seq<nat>, s: nat, v': bool)
    requires Halfway(bits, from, v, n, done, [], s, v')
    ensures !Broken(bits, from, v, n) && s == Wrap(from + Sum(Lengths(bits).value))
  {
    hide Overruns, Wrap, Sum, Lengths, Polarity;
    NoLengths();
    assert done + [] == done;
  }

  /** A look-ahead of up to 64 bits, filled up with zeros, decodes the next run. */
  lemma DecodeNext(runs: seq<nat>, ahead: seq<bool>, rest: seq<bool>)
    requires Codable(runs) && runs != [] && runs[0] < Least(LEVELS) && ahead + rest == Stream(runs)
    requires |ahead| <= 64 && (rest != [] ==> |ahead| == 64)
    ensures var (rl, n) := Decode(ahead + Zeros(64 - |ahead|));
      rl == runs[0] && 2 <= n <= |ahead| && ahead[n..] + rest == Stream(runs[1..])
  {
    hide Encode, Decode, Least, Zeros;
    var w, tail := Encode(runs[0]).word, Stream(runs[1..]);
    RoundTrip(runs[0], []);
    assert |ahead| >= |w| by {
      assert |ahead + rest| == |w + tail|;
    }
    assert ahead[..|w|] == w by {
      assert (ahead + rest)[..|w|] == w;
    }
    var z := Zeros(64 - |ahead|);
    assert ahead + z == w + (ahead[|w|..] + z);
    RoundTrip(runs[0], ahead[|w|..] + z);
    assert ahead[|w|..] + rest == (ahead + rest)[|w|..];
  }
}

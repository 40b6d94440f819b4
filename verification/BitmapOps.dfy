/** The plain, bit-by-bit meaning of the bitmap operations, and what it does to every peer's bits. */
module BitmapOps {
  import opened Words
  import opened BitmapLayout
  import opened BitmapStore

  datatype Op =
    | Clear | Set | Test | Count | Merge | Extract
    | FindBit | FindZeroBit | RangeFindBit | RangeFindZeroBit
  {
    predicate IsFind() {
      FindBit? || FindZeroBit? || RangeFindBit? || RangeFindZeroBit?
    }

    /** The polarity a find operation looks for. */
    predicate Seeks() {
      FindBit? || RangeFindBit?
    }

    predicate Writes() {
      Clear? || Set? || Merge?
    }
  }

  /** Result of an operation so far; `dirty` holds the pages on which a bit changed. */
  datatype Acc = Acc(pages: seq<Page>, dirty: set<nat>, total: nat)

  function BitOp(op: Op, bit: bool, arg: bool): bool {
    match op
    case Clear => false
    case Set => true
    case Merge => bit || arg
    case _ => bit
  }

  /** Bit of the merge buffer that goes with bitmap bit `b`; the buffer starts at bit `base`. */
  predicate ArgBit(buffer: seq<Word>, base: nat, b: nat) {
    base <= b && (b - base) / 32 < |buffer| && buffer[(b - base) / 32][(b - base) % 32]
  }

  function Step(op: Op, acc: Acc, w: nat, i: nat, arg: bool): (r: Acc)
    requires w < |acc.pages| * PAGE_WORDS && i < 32
    ensures |r.pages| == |acc.pages|
  {
    var word := ReadWord(acc.pages, w);
    var bit := BitOp(op, word[i], arg);
    Acc(WriteWord(acc.pages, w, word[i := bit]),
        if bit != word[i] then acc.dirty + {w / PAGE_WORDS} else acc.dirty,
        acc.total + if bit != word[i] || (op.Count? && word[i]) then 1 else 0)
  }

  /** Applies `op` to the bits `s..e` of peer `k`, one after the other. */
  function Run(op: Op, acc: Acc, peers: nat, k: nat, s: nat, e: nat, buffer: seq<Word>, base: nat): (r: Acc)
    requires s <= e ==> Holds(acc.pages, peers, k, e)
    ensures |r.pages| == |acc.pages|
    decreases e + 1 - s
  {
    if s > e then acc
    else
      HoldsBelow(acc.pages, peers, k, s, e);
      Run(op, Step(op, acc, WordIndex(peers, k, s), s % 32, ArgBit(buffer, base, s)), peers, k, s + 1, e, buffer, base)
  }

  /** Least bit in `[s, e]` of the wanted polarity, or `e + 1`. */
  function FindFrom(pages: seq<Page>, peers: nat, k: nat, s: nat, e: nat, val: bool): (r: nat)
    requires s <= e + 1
    ensures s <= r <= e + 1
    ensures r <= e ==> BitAt(pages, peers, k, r) == val
    ensures forall b :: s <= b < r ==> BitAt(pages, peers, k, b) != val
    decreases e + 1 - s
  {
    if s > e || BitAt(pages, peers, k, s) == val then s
    else FindFrom(pages, peers, k, s + 1, e, val)
  }

  lemma StepFrame(op: Op, acc: Acc, peers: nat, k: nat, s: nat, arg: bool, q: nat, b: nat)
    requires Holds(acc.pages, peers, k, s)
    ensures var r := Step(op, acc, WordIndex(peers, k, s), s % 32, arg);
      && Holds(r.pages, peers, q, b) == Holds(acc.pages, peers, q, b)
      && BitAt(r.pages, peers, q, b)
         == (if q == k && b == s then BitOp(op, BitAt(acc.pages, peers, k, s), arg) else BitAt(acc.pages, peers, q, b))
  {
    var w := WordIndex(peers, k, s);
    var word := ReadWord(acc.pages, w);
    WriteWordFrame(acc.pages, peers, k, s, word[s % 32 := BitOp(op, word[s % 32], arg)], q, b);
  }

  lemma RunUnfold(op: Op, acc: Acc, peers: nat, k: nat, s: nat, e: nat, buffer: seq<Word>, base: nat)
    requires s <= e && Holds(acc.pages, peers, k, e)
    ensures Holds(acc.pages, peers, k, s)
    ensures var next := Step(op, acc, WordIndex(peers, k, s), s % 32, ArgBit(buffer, base, s));
      Run(op, acc, peers, k, s, e, buffer, base) == Run(op, next, peers, k, s + 1, e, buffer, base)
  {
    HoldsBelow(acc.pages, peers, k, s, e);
  }

  lemma RunEmpty(op: Op, acc: Acc, peers: nat, k: nat, s: nat, e: nat, buffer: seq<Word>, base: nat)
    requires s > e
    ensures Run(op, acc, peers, k, s, e, buffer, base) == acc
  {
  }

  lemma StepTally(op: Op, acc: Acc, peers: nat, k: nat, s: nat, arg: bool)
    requires Holds(acc.pages, peers, k, s)
    ensures var r := Step(op, acc, WordIndex(peers, k, s), s % 32, arg);
      var bit := BitAt(acc.pages, peers, k, s);
      && r.total == acc.total + (if BitOp(op, bit, arg) != bit || (op.Count? && bit) then 1 else 0)
      && r.dirty == (if BitOp(op, bit, arg) != bit then acc.dirty + {PageOf(peers, k, s)} else acc.dirty)
  {
  }

  /** Every bit of every peer after a run: only the addressed bits of peer `k` change. */
  lemma {:induction false} RunBits(op: Op, acc: Acc, peers: nat, k: nat, s: nat, e: nat, buffer: seq<Word>, base: nat,
                                   q: nat, b: nat)
    requires s <= e ==> Holds(acc.pages, peers, k, e)
    ensures var r := Run(op, acc, peers, k, s, e, buffer, base);
      BitAt(r.pages, peers, q, b)
      == (if q == k && s <= b <= e then BitOp(op, BitAt(acc.pages, peers, k, b), ArgBit(buffer, base, b))
          else BitAt(acc.pages, peers, q, b))
    decreases e + 1 - s
  {
    hide Run, Step, WordIndex, BitAt, ArgBit;
    if s > e {
      RunEmpty(op, acc, peers, k, s, e, buffer, base);
      return;
    }
    RunUnfold(op, acc, peers, k, s, e, buffer, base);
    StepFrame(op, acc, peers, k, s, ArgBit(buffer, base, s), q, b);
    var next := Step(op, acc, WordIndex(peers, k, s), s % 32, ArgBit(buffer, base, s));
    RunBits(op, next, peers, k, s + 1, e, buffer, base, q, b);
  }

  /** What the returned total counts. */
  lemma {:induction false} RunTotal(op: Op, acc: Acc, peers: nat, k: nat, s: nat, e: nat, buffer: seq<Word>, base: nat)
    requires s <= e + 1
    requires s <= e ==> Holds(acc.pages, peers, k, e)
    ensures var r := Run(op, acc, peers, k, s, e, buffer, base);
      var before, after := CountRange(acc.pages, peers, k, s, e + 1), CountRange(r.pages, peers, k, s, e + 1);
      r.total - acc.total == (match op
                              case Count => before
                              case Clear => before - after
                              case _ => after - before)
    decreases e + 1 - s
  {
    hide Run, Step, WordIndex, BitAt, ArgBit;
    if s > e {
      RunEmpty(op, acc, peers, k, s, e, buffer, base);
      return;
    }
    RunUnfold(op, acc, peers, k, s, e, buffer, base);
    var arg := ArgBit(buffer, base, s);
    var next := Step(op, acc, WordIndex(peers, k, s), s % 32, arg);
    var r := Run(op, acc, peers, k, s, e, buffer, base);
    RunTotal(op, next, peers, k, s + 1, e, buffer, base);
    StepTally(op, acc, peers, k, s, arg);
    forall b | s < b <= e ensures BitAt(next.pages, peers, k, b) == BitAt(acc.pages, peers, k, b) {
      StepFrame(op, acc, peers, k, s, arg, k, b);
    }
    CountRangeAgree(acc.pages, next.pages, peers, k, s + 1, e + 1);
    CountRangeSplit(acc.pages, peers, k, s, s + 1, e + 1);
    CountRangeSplit(r.pages, peers, k, s, s + 1, e + 1);
    RunBits(op, acc, peers, k, s, e, buffer, base, k, s);
  }

  lemma StepPages(op: Op, acc: Acc, peers: nat, k: nat, s: nat, arg: bool, p: nat)
    requires Holds(acc.pages, peers, k, s) && p < |acc.pages|
    requires var bit := BitAt(acc.pages, peers, k, s); BitOp(op, bit, arg) == bit || p != PageOf(peers, k, s)
    ensures Step(op, acc, WordIndex(peers, k, s), s % 32, arg).pages[p] == acc.pages[p]
  {
    var w := WordIndex(peers, k, s);
    var word := ReadWord(acc.pages, w);
    if BitOp(op, word[s % 32], arg) == word[s % 32] {
      assert word[s % 32 := word[s % 32]] == word;
      WriteWordSame(acc.pages, w);
    }
  }

  /** A bit that differs between two stores puts a difference on its page. */
  lemma BitDiffersPageDiffers(p: seq<Page>, p': seq<Page>, peers: nat, k: nat, s: nat)
    requires |p| == |p'| && BitAt(p, peers, k, s) != BitAt(p', peers, k, s)
    ensures PageOf(peers, k, s) < |p| && p[PageOf(peers, k, s)] != p'[PageOf(peers, k, s)]
  {
  }

  /** A page is marked exactly when its content changed. */
  lemma {:induction false} RunDirty(op: Op, acc: Acc, peers: nat, k: nat, s: nat, e: nat, buffer: seq<Word>, base: nat,
                                    p: nat)
    requires s <= e ==> Holds(acc.pages, peers, k, e)
    requires p < |acc.pages|
    ensures var r := Run(op, acc, peers, k, s, e, buffer, base);
      p in r.dirty <==> p in acc.dirty || r.pages[p] != acc.pages[p]
    decreases e + 1 - s
  {
    hide Run, Step, WordIndex, BitAt, ArgBit;
    if s > e {
      RunEmpty(op, acc, peers, k, s, e, buffer, base);
      return;
    }
    RunUnfold(op, acc, peers, k, s, e, buffer, base);
    var arg := ArgBit(buffer, base, s);
    var bit := BitAt(acc.pages, peers, k, s);
    var next := Step(op, acc, WordIndex(peers, k, s), s % 32, arg);
    RunDirty(op, next, peers, k, s + 1, e, buffer, base, p);
    StepTally(op, acc, peers, k, s, arg);
    if BitOp(op, bit, arg) == bit || p != PageOf(peers, k, s) {
      StepPages(op, acc, peers, k, s, arg, p);
    } else {
      RunBits(op, acc, peers, k, s, e, buffer, base, k, s);
      BitDiffersPageDiffers(acc.pages, Run(op, acc, peers, k, s, e, buffer, base).pages, peers, k, s);
    }
  }

  lemma RunDirtyInRange(op: Op, acc: Acc, peers: nat, k: nat, s: nat, e: nat, buffer: seq<Word>, base: nat)
    requires s <= e ==> Holds(acc.pages, peers, k, e)
    requires forall p :: p in acc.dirty ==> p < |acc.pages|
    ensures forall p :: p in Run(op, acc, peers, k, s, e, buffer, base).dirty ==> p < |acc.pages|
    decreases e + 1 - s
  {
    if s <= e {
      HoldsBelow(acc.pages, peers, k, s, e);
    }
  }

  /** `op` on `n` bits of one word from bit `lo`, with the operand bits in `a`. */
  function OpWord(op: Op, word: Word, lo: nat, n: nat, a: Word): Word
    requires lo + n <= 32
  {
    seq(32, i requires 0 <= i < 32 => if lo <= i < lo + n then BitOp(op, word[i], a[i]) else word[i])
  }

  /** Which of those bits the operation counts. */
  function Counted(op: Op, word: Word, lo: nat, n: nat, a: Word): seq<bool>
    requires lo + n <= 32
  {
    seq(n, j requires 0 <= j < n => BitOp(op, word[lo + j], a[lo + j]) != word[lo + j] || (op.Count? && word[lo + j]))
  }

  /** The effect of a run on `n` bits of word `w`, done as one word operation. */
  function WordStep(op: Op, acc: Acc, w: nat, lo: nat, n: nat, a: Word): (r: Acc)
    requires w < |acc.pages| * PAGE_WORDS && lo + n <= 32
    ensures |r.pages| == |acc.pages|
  {
    var word := ReadWord(acc.pages, w);
    var tally := Weight(Counted(op, word, lo, n, a));
    Acc(WriteWord(acc.pages, w, OpWord(op, word, lo, n, a)),
        if tally > 0 && op.Writes() then acc.dirty + {w / PAGE_WORDS} else acc.dirty,
        acc.total + tally)
  }

  lemma OpWordGrows(op: Op, word: Word, lo: nat, n: nat, a: Word)
    requires lo + n < 32
    ensures OpWord(op, word, lo, n + 1, a) == OpWord(op, word, lo, n, a)[lo + n := BitOp(op, word[lo + n], a[lo + n])]
  {
  }

  lemma CountedGrows(op: Op, word: Word, lo: nat, n: nat, a: Word)
    requires lo + n < 32
    ensures Weight(Counted(op, word, lo, n + 1, a))
         == Weight(Counted(op, word, lo, n, a))
            + if BitOp(op, word[lo + n], a[lo + n]) != word[lo + n] || (op.Count? && word[lo + n]) then 1 else 0
  {
    assert Counted(op, word, lo, n + 1, a)[..n] == Counted(op, word, lo, n, a);
  }

  /** One more bit in the word operation is one more bit step. */
  lemma WordStepGrows(op: Op, acc: Acc, w: nat, lo: nat, n: nat, a: Word)
    requires w < |acc.pages| * PAGE_WORDS && lo + n < 32
    ensures Step(op, WordStep(op, acc, w, lo, n, a), w, lo + n, a[lo + n]) == WordStep(op, acc, w, lo, n + 1, a)
  {
    var word := ReadWord(acc.pages, w);
    OpWordGrows(op, word, lo, n, a);
    CountedGrows(op, word, lo, n, a);
    WriteWordTwice(acc.pages, w, OpWord(op, word, lo, n, a), OpWord(op, word, lo, n + 1, a));
    ReadWrittenWord(acc.pages, w, OpWord(op, word, lo, n, a));
    hide WriteWord, ReadWord, Counted, Weight;
  }

  lemma WordStepEmpty(op: Op, acc: Acc, w: nat, lo: nat, a: Word)
    requires w < |acc.pages| * PAGE_WORDS && lo < 32
    ensures WordStep(op, acc, w, lo, 0, a) == acc
  {
    var word := ReadWord(acc.pages, w);
    assert OpWord(op, word, lo, 0, a) == word;
    assert Counted(op, word, lo, 0, a) == [];
    WriteWordSame(acc.pages, w);
  }

  lemma SameWord(peers: nat, k: nat, s: nat, j: nat)
    requires s % 32 + j < 32
    ensures (s + j) / 32 == s / 32 && (s + j) % 32 == s % 32 + j
    ensures WordIndex(peers, k, s + j) == WordIndex(peers, k, s)
  {
  }

  /** The operand bits that go with the word holding bit `s`. */
  function ArgWord(buffer: seq<Word>, base: nat, s: nat): Word {
    seq(32, i requires 0 <= i < 32 => ArgBit(buffer, base, s / 32 * 32 + i))
  }

  lemma RunWordGrows(op: Op, acc: Acc, peers: nat, k: nat, s: nat, n: nat, e: nat, buffer: seq<Word>, base: nat)
    requires s % 32 + n < 32 && s + n <= e && Holds(acc.pages, peers, k, e)
    ensures Holds(acc.pages, peers, k, s)
    ensures var w, a := WordIndex(peers, k, s), ArgWord(buffer, base, s);
      Run(op, WordStep(op, acc, w, s % 32, n, a), peers, k, s + n, e, buffer, base)
      == Run(op, WordStep(op, acc, w, s % 32, n + 1, a), peers, k, s + n + 1, e, buffer, base)
  {
    hide Run, Step, WordStep, ArgBit, WordIndex;
    HoldsBelow(acc.pages, peers, k, s, e);
    var w, a := WordIndex(peers, k, s), ArgWord(buffer, base, s);
    SameWord(peers, k, s, n);
    WordStepGrows(op, acc, w, s % 32, n, a);
    RunUnfold(op, WordStep(op, acc, w, s % 32, n, a), peers, k, s + n, e, buffer, base);
  }

  /** Word-at-a-time agrees with bit-at-a-time. */
  lemma {:induction false} RunWordStep(op: Op, acc: Acc, peers: nat, k: nat, s: nat, n: nat, e: nat,
                                       buffer: seq<Word>, base: nat)
    requires s % 32 + n <= 32 && s + n <= e + 1 && s <= e
    requires Holds(acc.pages, peers, k, e)
    ensures Holds(acc.pages, peers, k, s)
    ensures var next := WordStep(op, acc, WordIndex(peers, k, s), s % 32, n, ArgWord(buffer, base, s));
      Run(op, acc, peers, k, s, e, buffer, base) == Run(op, next, peers, k, s + n, e, buffer, base)
    decreases n
  {
    hide *;
    HoldsBelow(acc.pages, peers, k, s, e);
    if n == 0 {
      WordStepEmpty(op, acc, WordIndex(peers, k, s), s % 32, ArgWord(buffer, base, s));
    } else {
      RunWordStep(op, acc, peers, k, s, n - 1, e, buffer, base);
      RunWordGrows(op, acc, peers, k, s, n - 1, e, buffer, base);
    }
  }
}

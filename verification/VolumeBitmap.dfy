/** From the file system's allocation bitmap to out-of-sync bits. */
module VolumeBitmap {
  import opened Arithmetic

  const BSR_BITMAP_UNIT := 4096

  /** A byte by its bits, bit 0 first. */
  type Byte = b: seq<bool> | |b| == 8 witness seq(8, _ => false)

  predicate ClusterSize(cluster: nat) {
    cluster in {512, 1024, 2048, 4096, 8192, 16384, 32768, 65536}
  }

  /** Bit `i` of a bitmap. */
  predicate Bit(bytes: seq<Byte>, i: nat) {
    i / 8 < |bytes| && bytes[i / 8][i % 8]
  }

  /** Cluster `q` and 4 KiB block `t` share a byte of storage. */
  predicate Overlap(q: nat, t: nat, cluster: nat) {
    q * cluster < (t + 1) * BSR_BITMAP_UNIT && t * BSR_BITMAP_UNIT < (q + 1) * cluster
  }

  /** Some allocated cluster among the first `n` overlaps block `t`. */
  ghost predicate InUse(vol: seq<Byte>, n: nat, t: nat, cluster: nat) {
    exists q: nat :: q < n && Bit(vol, q) && Overlap(q, t, cluster)
  }

  /** Blocks per cluster, and clusters per block. */
  function WriteCount(cluster: nat): nat {
    cluster / BSR_BITMAP_UNIT + if cluster < BSR_BITMAP_UNIT then 1 else 0
  }

  function ReadCount(cluster: nat): nat
    requires cluster > 0
  {
    BSR_BITMAP_UNIT / cluster + if cluster > BSR_BITMAP_UNIT then 1 else 0
  }

  lemma Counts(cluster: nat)
    requires ClusterSize(cluster)
    ensures var w, r := WriteCount(cluster), ReadCount(cluster);
      && (r, w) in {(8, 1), (4, 1), (2, 1), (1, 1), (1, 2), (1, 4), (1, 8), (1, 16)}
      && cluster * r == BSR_BITMAP_UNIT * w
  {
  }

  /** The clusters of one group all lie in, or make up, the blocks from `group * w` on. */
  lemma GroupBlocks(cluster: nat, group: nat, q: nat, t: nat)
    requires ClusterSize(cluster)
    requires var r := ReadCount(cluster); group * r <= q < group * r + r
    ensures var w := WriteCount(cluster); Overlap(q, t, cluster) <==> group * w <= t < group * w + w
  {
    Counts(cluster);
  }

  function LowOnes(n: int): Byte {
    seq(8, j => j < n)
  }

  function ShiftLeft(b: Byte, n: nat): Byte {
    seq(8, j requires 0 <= j < 8 => j >= n && b[j - n])
  }

  function OrByte(a: Byte, b: Byte): Byte {
    seq(8, j requires 0 <= j < 8 => a[j] || b[j])
  }

  lemma StoredByte(was: seq<Byte>, i: nat, mask: Byte)
    requires i < |was|
    ensures forall t: nat :: Bit(was[i := OrByte(was[i], mask)], t) <==> Bit(was, t) || (t / 8 == i && mask[t % 8])
  {
  }

  /** The mask of byte `i` of a group that starts at bit `at`. */
  lemma MaskIs(at: nat, w: nat, i: nat, t: nat)
    requires 0 < w && (at % 8 + w <= 8 || (at % 8 == 0 && w == 16)) && i <= (w - 1) / 8 && t / 8 == at / 8 + i
    ensures ShiftLeft(LowOnes(w - i * 8), if i == 1 then 0 else at % 8)[t % 8] <==> at <= t < at + w
  {
  }

  /** The store of one group: bits `at` to `at + w`. */
  method SetBlocks(out: array<Byte>, at: nat, w: nat)
    requires 0 < w && Fits(at, w, out.Length)
    modifies out
    ensures forall t: nat :: Bit(out[..], t) <==> Bit(old(out[..]), t) || at <= t < at + w
  {
    hide Bit, LowOnes, ShiftLeft, OrByte;
    var byte, inByte: nat := at / 8, at % 8;
    ghost var was := out[..];
    for i := 0 to (w - 1) / 8 + 1
      invariant inByte == if i == 2 then 0 else at % 8
      invariant forall t: nat :: Bit(out[..], t) <==> Bit(was, t) || (at <= t < at + w && t / 8 < byte + i)
    {
      var bits := LowOnes(w - i * 8);
      if i == 1 {
        inByte := 0;
      }
      ghost var before := out[..];
      var mask := ShiftLeft(bits, inByte);
      StoredByte(before, byte + i, mask);
      forall t: nat | t / 8 == byte + i ensures mask[t % 8] <==> at <= t < at + w {
        MaskIs(at, w, i, t);
      }
      out[byte + i] := OrByte(out[byte + i], mask);
      assert out[..] == before[byte + i := OrByte(before[byte + i], mask)];
    }
  }

  /** `(byte >> pos) & ((1 << r) - 1)` is not zero. */
  predicate AnyBit(byte: Byte, pos: nat, r: nat)
    requires pos + r <= 8
  {
    exists i :: pos <= i < pos + r && byte[i]
  }

  lemma AnyInGroup(vol: seq<Byte>, bytePos: nat, pos: nat, r: nat)
    requires bytePos < |vol| && pos + r <= 8
    ensures AnyBit(vol[bytePos], pos, r) <==>
              exists q: nat :: 8 * bytePos + pos <= q < 8 * bytePos + pos + r && Bit(vol, q)
  {
    if AnyBit(vol[bytePos], pos, r) {
      var i :| pos <= i < pos + r && vol[bytePos][i];
      assert Bit(vol, 8 * bytePos + i);
    }
    if q: nat :| 8 * bytePos + pos <= q < 8 * bytePos + pos + r && Bit(vol, q) {
      assert vol[bytePos][q - 8 * bytePos];
    }
  }

  /** One more group of clusters marks its blocks. */
  lemma GroupStep(vol: seq<Byte>, cluster: nat, group: nat, t: nat)
    requires ClusterSize(cluster)
    ensures var r, w := ReadCount(cluster), WriteCount(cluster);
      InUse(vol, group * r + r, t, cluster) <==>
        || InUse(vol, group * r, t, cluster)
        || ((exists q: nat :: group * r <= q < group * r + r && Bit(vol, q)) && group * w <= t < group * w + w)
  {
    hide Bit, Overlap;
    var r, w := ReadCount(cluster), WriteCount(cluster);
    forall q: nat | group * r <= q < group * r + r ensures Overlap(q, t, cluster) <==> group * w <= t < group * w + w {
      GroupBlocks(cluster, group, q, t);
    }
    if q: nat :| q < group * r && Bit(vol, q) && Overlap(q, t, cluster) {
      assert q < group * r + r;
    }
    if q: nat :| group * r <= q < group * r + r && Bit(vol, q) && group * w <= t < group * w + w {
      assert Overlap(q, t, cluster);
    }
  }

  /** The first converted bit of the group that starts at bit `pos` of byte `n`. */
  function Place(n: nat, pos: nat, w: nat, r: nat): nat
    requires r > 0
  {
    (n * 8 + pos) * w / r
  }

  /** The stored bits of one group stay within one byte, or fill two, and within the room. */
  predicate Fits(at: nat, w: nat, room: nat) {
    (at % 8 + w <= 8 || (at % 8 == 0 && w == 16)) && at + w <= 8 * room
  }

  lemma GroupNumber(n: nat, m: nat, r: nat, d: nat)
    requires d * r == 8
    ensures (n * d + m) * r == 8 * n + m * r
  {
    DistributeSum(n * d, m, r);
    Associate(n, d, r);
  }

  lemma GroupBound(n: nat, m: nat, r: nat, d: nat, room: nat)
    requires d * r == 8 && m < d && n < room * r
    ensures n * d + m + 1 <= 8 * room
  {
    Distribute(n, d);
    MulMono(n + 1, room * r, d);
    Associate(room, r, d);
  }

  lemma SmallClusters(n: nat, pos: nat, r: nat, d: nat, m: nat, room: nat)
    requires d * r == 8 && r > 0 && pos == m * r && m < d && n < room * r
    ensures pos + r <= 8 && (pos + r) % r == 0 && (8 * n + pos) / r * r == 8 * n + pos
    ensures Place(n, pos, 1, r) == (8 * n + pos) / r && Fits(Place(n, pos, 1, r), 1, room)
  {
    MulMono(m + 1, d, r);
    Distribute(m, r);
    Quotient(0, m + 1, r);
    GroupNumber(n, m, r, d);
    Quotient(0, n * d + m, r);
    GroupBound(n, m, r, d, room);
  }

  lemma LargeClusters(n: nat, pos: nat, w: nat, size: nat, room: nat)
    requires w in {1, 2, 4, 8, 16} && n < size && size * w <= room && pos < 8
    ensures Place(n, pos, w, 1) == (8 * n + pos) * w && Fits((8 * n + pos) * w, w, room)
  {
    MulMono(8 * n + pos + 1, 8 * size, w);
    Associate(8, size, w);
    Distribute(8 * n + pos, w);
    if w == 1 {
    } else if w == 2 {
    } else if w == 4 {
    } else if w == 8 {
    }
  }

  /** Where group and store positions are. */
  lemma GroupPlace(cluster: nat, n: nat, pos: nat, size: nat, room: nat)
    requires ClusterSize(cluster) && n < size && pos < 8 && pos % ReadCount(cluster) == 0
    requires size * WriteCount(cluster) <= room * ReadCount(cluster)
    ensures var r, w := ReadCount(cluster), WriteCount(cluster);
      var group := (8 * n + pos) / r;
      && group * r == 8 * n + pos && Place(n, pos, w, r) == group * w && Fits(group * w, w, room)
      && pos + r <= 8 && (pos + r) % r == 0
  {
    hide ReadCount, WriteCount, Place, Fits, ClusterSize;
    Counts(cluster);
    if WriteCount(cluster) == 1 {
      var r := ReadCount(cluster);
      SmallClusters(n, pos, r, 8 / r, pos / r, room);
    } else {
      LargeClusters(n, pos, WriteCount(cluster), size, room);
    }
  }

  /** `ConvertVolumeBitmap`: a block is marked exactly when an allocated cluster overlaps it. */
  method Convert(vol: seq<Byte>, cluster: nat, out: array<Byte>)
    requires ClusterSize(cluster) && |vol| * WriteCount(cluster) <= out.Length * ReadCount(cluster)
    modifies out
    ensures forall t: nat :: Bit(out[..], t) <==> Bit(old(out[..]), t) || InUse(vol, 8 * |vol|, t, cluster)
  {
    hide Bit, InUse, Overlap, ReadCount, WriteCount, ClusterSize, Place, AnyBit;
    Counts(cluster);
    var writeCount, readCount := WriteCount(cluster), ReadCount(cluster);
    NoneYet(vol, cluster);
    for bytePos := 0 to |vol|
      invariant forall t: nat :: Bit(out[..], t) <==> Bit(old(out[..]), t) || InUse(vol, 8 * bytePos, t, cluster)
    {
      var pos := 0;
      while pos < 8
        invariant pos <= 8 && pos % readCount == 0
        invariant forall t: nat :: Bit(out[..], t) <==>
                    Bit(old(out[..]), t) || InUse(vol, 8 * bytePos + pos, t, cluster)
      {
        GroupPlace(cluster, bytePos, pos, |vol|, out.Length);
        AnyInGroup(vol, bytePos, pos, readCount);
        ghost var done := 8 * bytePos + pos;
        ghost var group, next := done / readCount, done + readCount;
        forall t: nat
          ensures InUse(vol, next, t, cluster) <==>
                    || InUse(vol, done, t, cluster)
                    || (AnyBit(vol[bytePos], pos, readCount)
                        && group * writeCount <= t < group * writeCount + writeCount)
        {
          GroupStep(vol, cluster, group, t);
        }
        if AnyBit(vol[bytePos], pos, readCount) {
          SetBlocks(out, Place(bytePos, pos, writeCount, readCount), writeCount);
        }
        pos := pos + readCount;
      }
    }
  }

  lemma NoneYet(vol: seq<Byte>, cluster: nat)
    ensures forall t: nat :: !InUse(vol, 0, t, cluster)
  {
  }
}

/** Marking out of sync what the converted volume bitmap says is in use. */
module VolumeSync {
  import opened BitmapStore
  import opened BitmapOps
  import opened BitmapScan
  import opened Bitmap
  import opened ResyncLock
  import opened SyncCounts
  import opened SyncBits
  import opened LruCache
  import BitmapWeight
  import V = VolumeBitmap

  /** Peer `k` gained the set bits of `vol` below `n` that lie in the bitmap; nothing else changed. */
  ghost predicate Marked(p0: seq<Page>, p1: seq<Page>, peers: nat, k: nat, bits: nat, vol: seq<V.Byte>, n: nat) {
    forall q: nat, b: nat ::
      BitAt(p1, peers, q, b) == (BitAt(p0, peers, q, b) || (q == k && b < n && b < bits && V.Bit(vol, b)))
  }

  lemma MarkedNone(p: seq<Page>, peers: nat, k: nat, bits: nat, vol: seq<V.Byte>)
    ensures Marked(p, p, peers, k, bits, vol, 0)
  {
  }

  lemma MarkedGap(p0: seq<Page>, p1: seq<Page>, peers: nat, k: nat, bits: nat, vol: seq<V.Byte>, n: nat)
    requires Marked(p0, p1, peers, k, bits, vol, n) && !V.Bit(vol, n)
    ensures Marked(p0, p1, peers, k, bits, vol, n + 1)
  {
    hide BitAt, V.Bit;
  }

  lemma MarkedRun(p0: seq<Page>, p1: seq<Page>, p2: seq<Page>, peers: nat, k: nat, bits: nat, vol: seq<V.Byte>, s: nat,
                  n: nat)
    requires Marked(p0, p1, peers, k, bits, vol, s) && s < n && forall b: nat :: s <= b < n ==> V.Bit(vol, b)
    requires Applied(Set, p1, p2, peers, k, s, Clip(bits, n - 1), [])
    ensures Marked(p0, p2, peers, k, bits, vol, n)
  {
    hide BitAt, V.Bit, ArgBit;
  }

  /** `SetOOSFromBitmap`: runs of set bits, one call per run; returns how many bits were newly set. */
  method SetOosFromBitmap(vol: seq<V.Byte>, peer: PeerBits, resetFailed: bool) returns (count: int)
    requires peer.Ready() && 8 * |vol| < END_OF_BITMAP && 8 * |vol| / BM_BITS_PER_EXT < LC_FREE
    modifies peer.dev`peers, peer.bm`pages, peer.bm`needWriteout, peer.bm`lazyWriteout, peer.bm`bmSet
    ensures peer.Ready() && (old(peer.Valid()) ==> peer.Valid())
    ensures forall q: nat, b: nat ::
              BitAt(peer.bm.pages, peer.bm.peers, q, b)
              == (BitAt(old(peer.bm.pages), peer.bm.peers, q, b) || (q == peer.k && b < peer.bm.bits && V.Bit(vol, b)))
    ensures count == BitmapWeight.Weight(peer.bm.pages, peer.bm.peers, peer.k, peer.bm.bits)
                     - BitmapWeight.Weight(old(peer.bm.pages), peer.bm.peers, peer.k, peer.bm.bits)
  {
    hide BitAt, V.Bit, Marked, BitmapWeight.Weight, Applied, Result, CountsRight, BsrBitmap.Valid, Device.Inv;
    count := 0;
    var start: nat := END_OF_BITMAP;
    MarkedNone(peer.bm.pages, peer.bm.peers, peer.k, peer.bm.bits, vol);
    for bytePos := 0 to |vol|
      invariant peer.Ready() && (old(peer.Valid()) ==> peer.Valid())
      invariant Scanned(old(peer.bm.pages), peer.bm.pages, peer.bm.peers, peer.k, peer.bm.bits, vol, start, 8 * bytePos,
                        count)
    {
      for pos := 0 to 8
        invariant peer.Ready() && (old(peer.Valid()) ==> peer.Valid())
        invariant Scanned(old(peer.bm.pages), peer.bm.pages, peer.bm.peers, peer.k, peer.bm.bits, vol, start,
                          8 * bytePos + pos, count)
      {
        var bit := vol[bytePos][pos];
        BitIs(vol, bytePos, pos);
        if start == END_OF_BITMAP && bit {
          start := 8 * bytePos + pos;
          continue;
        }
        if start != END_OF_BITMAP && !bit {
          count := MarkRun(vol, peer, start, 8 * bytePos + pos, old(peer.bm.pages), count, resetFailed);
          start := END_OF_BITMAP;
          MarkedGap(old(peer.bm.pages), peer.bm.pages, peer.bm.peers, peer.k, peer.bm.bits, vol, 8 * bytePos + pos);
          continue;
        }
        if !bit {
          MarkedGap(old(peer.bm.pages), peer.bm.pages, peer.bm.peers, peer.k, peer.bm.bits, vol, 8 * bytePos + pos);
        }
      }
    }
    if start != END_OF_BITMAP {
      count := MarkRun(vol, peer, start, 8 * |vol|, old(peer.bm.pages), count, resetFailed);
    }
    AllMarked(old(peer.bm.pages), peer.bm.pages, peer.bm.peers, peer.k, peer.bm.bits, vol);
  }

  /** The scan has looked at `n` bits; an open run of set bits from `start` on is not marked yet. */
  ghost predicate Scanned(p0: seq<Page>, p1: seq<Page>, peers: nat, k: nat, bits: nat, vol: seq<V.Byte>, start: nat,
                          n: nat, count: int) {
    && (start == END_OF_BITMAP || (start < n && forall b: nat :: start <= b < n ==> V.Bit(vol, b)))
    && Marked(p0, p1, peers, k, bits, vol, if start == END_OF_BITMAP then n else start)
    && count == BitmapWeight.Weight(p1, peers, k, bits) - BitmapWeight.Weight(p0, peers, k, bits)
  }

  lemma BitIs(vol: seq<V.Byte>, bytePos: nat, pos: nat)
    requires bytePos < |vol| && pos < 8
    ensures V.Bit(vol, 8 * bytePos + pos) == vol[bytePos][pos]
  {
  }

  /** One run, set out of sync. */
  method MarkRun(vol: seq<V.Byte>, peer: PeerBits, start: nat, end: nat, ghost p0: seq<Page>, count: int,
                 resetFailed: bool)
    returns (now: int)
    requires peer.Ready() && start < end && end / BM_BITS_PER_EXT < LC_FREE
    requires forall b: nat :: start <= b < end ==> V.Bit(vol, b)
    requires Marked(p0, peer.bm.pages, peer.bm.peers, peer.k, peer.bm.bits, vol, start)
    requires count == BitmapWeight.Weight(peer.bm.pages, peer.bm.peers, peer.k, peer.bm.bits)
                      - BitmapWeight.Weight(p0, peer.bm.peers, peer.k, peer.bm.bits)
    modifies peer.dev`peers, peer.bm`pages, peer.bm`needWriteout, peer.bm`lazyWriteout, peer.bm`bmSet
    ensures peer.Ready() && (old(peer.Valid()) ==> peer.Valid())
    ensures Marked(p0, peer.bm.pages, peer.bm.peers, peer.k, peer.bm.bits, vol, end)
    ensures now == BitmapWeight.Weight(peer.bm.pages, peer.bm.peers, peer.k, peer.bm.bits)
                   - BitmapWeight.Weight(p0, peer.bm.peers, peer.k, peer.bm.bits)
  {
    hide BitAt, V.Bit, Marked, BitmapWeight.Weight, Applied, Result, CountsRight, BsrBitmap.Valid, Device.Inv;
    ghost var p1 := peer.bm.pages;
    var c := peer.UpdateSyncBits(start, end - 1, SetOutOfSync, resetFailed);
    MarkedRun(p0, p1, peer.bm.pages, peer.bm.peers, peer.k, peer.bm.bits, vol, start, end);
    BitmapWeight.AppliedWeight(Set, p1, peer.bm.pages, peer.bm.peers, peer.k, start, Clip(peer.bm.bits, end - 1),
                               end - 1, [], peer.bm.bits, peer.k);
    now := count + c;
  }

  lemma AllMarked(p0: seq<Page>, p1: seq<Page>, peers: nat, k: nat, bits: nat, vol: seq<V.Byte>)
    requires Marked(p0, p1, peers, k, bits, vol, 8 * |vol|)
    ensures forall q: nat, b: nat ::
              BitAt(p1, peers, q, b) == (BitAt(p0, peers, q, b) || (q == k && b < bits && V.Bit(vol, b)))
  {
    hide BitAt;
    forall b: nat | V.Bit(vol, b) ensures b < 8 * |vol| {
    }
  }
}

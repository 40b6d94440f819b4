/** The byte ring between the senders and the thread that feeds the socket. */
module SendRing {
  import opened Arithmetic

  const EAGAIN := 11
  const MAX_ONETIME_SEND_BUF := 1024 * 1024 * 10

  /** The bytes of a ring `m` from `r` up to `w`. */
  function Window(m: seq<int>, r: nat, w: nat): seq<int>
    requires r < |m| && w < |m|
  {
    if r <= w then m[r..w] else m[r..] + m[..w]
  }

  function Advance(pos: nat, n: nat, length: nat): nat
    requires pos < length && n < length
  {
    if pos + n < length then pos + n else pos + n - length
  }

  /** `d` written from position `w` on, around the end if need be. */
  function Stored(m: seq<int>, w: nat, d: seq<int>): (r: seq<int>)
    requires w < |m| && |d| < |m|
    ensures |r| == |m|
  {
    if w + |d| <= |m| then m[..w] + d + m[w + |d|..]
    else d[|m| - w..] + m[w + |d| - |m|..w] + d[..|m| - w]
  }

  /** Byte `k` of a window is `k` positions after its start. */
  lemma WindowAt(m: seq<int>, r: nat, w: nat, k: nat)
    requires r < |m| && w < |m| && k < |Window(m, r, w)|
    ensures k < |m| && Window(m, r, w)[k] == m[Advance(r, k, |m|)]
  {
  }

  lemma WindowLength(m: seq<int>, r: nat, w: nat)
    requires r < |m| && w < |m|
    ensures |Window(m, r, w)| == if r <= w then w - r else w - r + |m|
  {
  }

  lemma StoredAt(m: seq<int>, w: nat, d: seq<int>, p: nat)
    requires w < |m| && |d| < |m| && p < |m|
    ensures var k := if w <= p then p - w else p - w + |m|; Stored(m, w, d)[p] == if k < |d| then d[k] else m[p]
  {
  }

  lemma StoredWindow(m: seq<int>, r: nat, w: nat, d: seq<int>)
    requires r < |m| && w < |m| && |Window(m, r, w)| + |d| < |m|
    ensures Window(Stored(m, w, d), r, Advance(w, |d|, |m|)) == Window(m, r, w) + d
  {
    hide Window, Stored;
    var s, e := Stored(m, w, d), Advance(w, |d|, |m|);
    WindowLength(m, r, w);
    WindowLength(s, r, e);
    forall k | 0 <= k < |Window(m, r, w)| + |d|
      ensures Window(s, r, e)[k] == (Window(m, r, w) + d)[k]
    {
      WindowAt(s, r, e, k);
      StoredAt(m, w, d, Advance(r, k, |m|));
      if k < |Window(m, r, w)| {
        WindowAt(m, r, w, k);
      }
    }
  }

  lemma TakenWindow(m: seq<int>, r: nat, w: nat, n: nat)
    requires r < |m| && w < |m| && n <= |Window(m, r, w)|
    ensures n < |m| && Window(m, r, w) == Window(m, r, Advance(r, n, |m|)) + Window(m, Advance(r, n, |m|), w)
  {
  }

  lemma AdvanceIs(pos: nat, n: nat, length: nat)
    requires pos < length && n < length
    ensures (pos + n) % length == Advance(pos, n, length)
  {
    if pos + n < length {
      Quotient(pos + n, 0, length);
    } else {
      Quotient(pos + n - length, 1, length);
    }
  }

  lemma SizeIs(m: seq<int>, w: nat, r: nat)
    requires w < |m| && r < |m|
    ensures (w - r + |m|) % |m| == |Window(m, r, w)| < |m|
    ensures (r - w - 1 + |m|) % |m| == |m| - 1 - |Window(m, r, w)|
  {
    if r <= w {
      Quotient(w - r, 1, |m|);
      Quotient(r - w - 1 + |m|, 0, |m|);
    } else {
      Quotient(w - r + |m|, 0, |m|);
      Quotient(r - w - 1, 1, |m|);
    }
  }

  class Ring {
    const mem: array<int>
    var readPos: nat
    var writePos: nat
    var queued: nat
    /** All bytes ever accepted, and all bytes ever taken out. */
    ghost var accepted: seq<int>
    ghost var taken: seq<int>

    /** The bytes waiting, oldest first. */
    ghost function Contents(): seq<int>
      reads this, mem
      requires readPos < mem.Length && writePos < mem.Length
    {
      Window(mem[..], readPos, writePos)
    }

    /** What was taken out is a prefix of what was accepted, and the rest is waiting. */
    ghost predicate Valid()
      reads this, mem
    {
      && readPos < mem.Length && writePos < mem.Length
      && queued == |Contents()|
      && accepted == taken + Contents()
    }

    /** `length` cells; one of them always stays empty. */
    constructor (length: nat)
      requires length > 0
      ensures Valid() && accepted == [] && mem.Length == length && fresh(mem)
    {
      mem := new int[length](_ => 0);
      readPos, writePos, queued, accepted, taken := 0, 0, 0, [], [];
    }

    /** `get_ring_buffer_size` */
    method Size() returns (s: nat)
      requires Valid()
      ensures s == queued == |Contents()| < mem.Length
    {
      hide Window;
      SizeIs(mem[..], writePos, readPos);
      s := (writePos - readPos + mem.Length) % mem.Length;
    }

    /** One `memcpy` into the ring. */
    method CopyIn(at: nat, data: seq<int>)
      requires at + |data| <= mem.Length
      modifies mem
      ensures mem[..] == old(mem[..at]) + data + old(mem[at + |data|..])
    {
      for i := 0 to |data|
        invariant forall k :: 0 <= k < mem.Length ==> mem[k] == if at <= k < at + i then data[k - at] else old(mem[k])
      {
        mem[at + i] := data[i];
      }
    }

    /** The copy of `write_ring_buffer`, in two parts where the end of the ring is reached. */
    method Store(data: seq<int>)
      requires writePos < mem.Length && |data| < mem.Length
      modifies mem
      ensures mem[..] == Stored(old(mem[..]), writePos, data)
    {
      var remain := mem.Length - writePos;
      if remain < |data| {
        CopyIn(writePos, data[..remain]);
        CopyIn(0, data[remain..]);
      } else {
        CopyIn(writePos, data);
      }
    }

    /** One attempt of `write_ring_buffer` under the lock: nothing above the highwater, else all that fits. */
    method Write(data: seq<int>, highwater: nat) returns (r: int)
      requires Valid()
      requires queued + |data| <= highwater ==> |data| > 0 && queued < mem.Length - 1
      modifies this`writePos, this`queued, this`accepted, mem
      ensures Valid() && taken == old(taken)
      ensures if old(queued) + |data| > highwater then r == -EAGAIN && Contents() == old(Contents())
              else
                && r == (if |data| <= mem.Length - 1 - old(queued) then |data| else mem.Length - 1 - old(queued))
                && Contents() == old(Contents()) + data[..r]
    {
      hide Window, Stored, Advance;
      var size := Size();
      if size + |data| > highwater {
        return -EAGAIN;
      }
      ghost var was := mem[..];
      SizeIs(was, writePos, readPos);
      var n := |data|;
      var remain := (readPos - writePos - 1 + mem.Length) % mem.Length;
      if remain < n {
        n := remain;
      }
      Store(data[..n]);
      StoredWindow(was, readPos, writePos, data[..n]);
      AdvanceIs(writePos, n, mem.Length);
      writePos := (writePos + n) % mem.Length;
      SizeIs(mem[..], writePos, readPos);
      queued := (writePos - readPos + mem.Length) % mem.Length;
      accepted := accepted + data[..n];
      r := n;
    }

    /** `send_buf`: with a highwater of 99% a write is taken whole or not at all. */
    method Send(data: seq<int>) returns (r: int)
      requires Valid() && |data| > 0
      modifies this`writePos, this`queued, this`accepted, mem
      ensures Valid() && taken == old(taken)
      ensures r == -EAGAIN || r == |data|
      ensures r == |data| <==> (old(queued) + |data|) * 100 <= mem.Length * 99
      ensures Contents() == old(Contents()) + if r == |data| then data else []
    {
      hide Window;
      r := Write(data, mem.Length * 99 / 100);
      assert data[..|data|] == data;
    }

    /** `read_ring_buffer`: the oldest bytes, at most `MAX_ONETIME_SEND_BUF` of them. */
    method Read() returns (data: seq<int>)
      requires Valid()
      modifies this`readPos, this`queued, this`taken
      ensures Valid() && accepted == old(accepted)
      ensures taken == old(taken) + data && old(Contents()) == data + Contents()
      ensures |data| == if old(queued) > MAX_ONETIME_SEND_BUF then MAX_ONETIME_SEND_BUF else old(queued)
    {
      hide Window, Advance;
      var size := Size();
      if size == 0 {
        return [];
      }
      var n := if size > MAX_ONETIME_SEND_BUF then MAX_ONETIME_SEND_BUF else size;
      data := CopyOut(n);
      TakenWindow(mem[..], readPos, writePos, n);
      AdvanceIs(readPos, n, mem.Length);
      readPos := (readPos + n) % mem.Length;
      SizeIs(mem[..], writePos, readPos);
      queued := (writePos - readPos + mem.Length) % mem.Length;
      taken := taken + data;
    }

    /** The copy of `read_ring_buffer`, in two parts where the end of the ring is reached. */
    method CopyOut(n: nat) returns (data: seq<int>)
      requires readPos < mem.Length && 0 < n < mem.Length
      ensures |data| == n && data == Window(mem[..], readPos, Advance(readPos, n, mem.Length))
    {
      var remain := mem.Length - readPos;
      if remain < n {
        data := mem[readPos..] + mem[..n - remain];
      } else {
        data := mem[readPos..readPos + n];
      }
    }
  }
}

/** The page in which packets of one stream are assembled, and batched while the stream is corked. */
module SendBuffer {

  const PAGE_SIZE := 4096
  const EIO := 5

  class Stream {
    var page: array<int>
    /** Offsets into the page: start of what was not sent yet, and end of the finished packets. */
    var unsent: nat
    var pos: nat
    var reserved: nat
    var corked: bool
    /** Bytes handed to the transport, and the bytes of all packets sent, in order. */
    ghost var wire: seq<int>
    ghost var packets: seq<int>

    ghost predicate Bounds()
      reads this
    {
      page.Length == PAGE_SIZE && unsent <= pos && pos + reserved <= PAGE_SIZE
    }

    /** The transport has a prefix of the packets; the rest waits in the page. */
    ghost predicate Faithful()
      reads this, page
      requires Bounds()
    {
      wire + page[unsent..pos] == packets
    }

    constructor ()
      ensures Bounds() && Faithful() && packets == [] && unsent == pos == reserved == 0 && !corked && fresh(page)
    {
      page := new int[PAGE_SIZE](_ => 0);
      unsent, pos, reserved, corked, wire, packets := 0, 0, 0, false, [], [];
    }

    /** `flush_send_buffer`; `sent` says whether the transport took the page. */
    method Flush(sent: bool) returns (err: int)
      requires Bounds()
      modifies this`unsent, this`pos, this`reserved, this`wire
      ensures Bounds() && reserved == 0
      ensures err == 0 <==> sent || old(pos + reserved == unsent)
      ensures if err == 0 then unsent == pos == old(pos + reserved) && wire == old(wire + page[unsent..pos + reserved])
              else unsent == old(unsent) && pos == old(pos) && wire == old(wire)
    {
      var size := pos - unsent + reserved;
      if size == 0 {
        return 0;
      }
      if sent {
        wire := wire + page[unsent..unsent + size];
        pos := pos + reserved;
        unsent := pos;
        err := 0;
      } else {
        err := -EIO;
      }
      reserved := 0;
    }

    /** `alloc_send_buffer` for header and payload: room for the next packet, on a new or recycled page if need be.
        A packet that was prepared and never sent goes out with the flush, and only then. */
    method Prepare(size: nat, sent: bool, recycle: bool) returns (ok: bool)
      requires Bounds() && Faithful() && size <= PAGE_SIZE
      modifies this`page, this`unsent, this`pos, this`reserved, this`wire
      ensures Bounds() && packets == old(packets) && corked == old(corked)
      ensures reserved == if ok then size else 0
      ensures ok && old(pos) + size > PAGE_SIZE ==>
                unsent == pos == 0 && wire == old(wire + page[unsent..pos + reserved])
      ensures !ok || old(pos) + size <= PAGE_SIZE ==>
                page == old(page) && unsent == old(unsent) && pos == old(pos) && wire == old(wire)
      ensures ok <==> old(pos) + size <= PAGE_SIZE || sent || old(pos + reserved == unsent)
      ensures if ok && old(pos) + size > PAGE_SIZE && !recycle then fresh(page) else page == old(page)
      ensures Faithful() <==> !(ok && old(pos) + size > PAGE_SIZE && old(reserved) > 0)
    {
      if pos + size > PAGE_SIZE {
        var err := Flush(sent);
        if err != 0 {
          return false;
        }
        if !recycle {
          page := new int[PAGE_SIZE];
        }
        unsent, pos := 0, 0;
      }
      reserved := size;
      ok := true;
    }

    /** `resize_prepared_command` only shrinks. */
    method Shrink(size: nat)
      requires Bounds() && Faithful() && size <= reserved
      modifies this`reserved
      ensures Bounds() && Faithful() && reserved == size
    {
      reserved := size;
    }

    /** The prepared packet is written behind everything that was handed out or is waiting. */
    method WritePacket(packet: seq<int>)
      requires Bounds() && |packet| == reserved
      modifies page
      ensures page[..pos] == old(page[..pos]) && page[pos..pos + reserved] == packet
    {
      for i := 0 to |packet|
        invariant page[..pos] == old(page[..pos]) && page[pos..pos + i] == packet[..i]
      {
        page[pos + i] := packet[i];
      }
    }

    /** The prepared packet joins the stream: it is held back, or everything waiting goes out with it. */
    method Append(packet: seq<int>, hold: bool, sent: bool) returns (err: int)
      requires Bounds() && Faithful() && |packet| == reserved
      modifies this`unsent, this`pos, this`reserved, this`wire, this`packets, page
      ensures Bounds() && Faithful() && reserved == 0 && page[..old(pos)] == old(page[..pos])
      ensures err == 0 <==> hold || sent || old(pos + reserved == unsent)
      ensures packets == old(packets) + if err == 0 then packet else []
      ensures hold ==> wire == old(wire) && pos == old(pos + reserved) && unsent == old(unsent)
      ensures err == 0 && !hold ==> wire == packets
    {
      WritePacket(packet);
      assert page[unsent..pos] == page[..pos][unsent..];
      assert page[unsent..pos + reserved] == page[unsent..pos] + packet;
      if hold {
        pos := pos + reserved;
        reserved := 0;
        err := 0;
      } else {
        err := Flush(sent);
      }
      if err == 0 {
        packets := packets + packet;
      }
    }

    /** `__send_command`: a corked stream keeps the packet back unless it is urgent. */
    method Send(packet: seq<int>, urgent: bool, connected: bool, sent: bool) returns (err: int)
      requires Bounds() && Faithful() && |packet| == reserved > 0
      modifies this`unsent, this`pos, this`reserved, this`wire, this`packets, page
      ensures Bounds() && Faithful() && page[..old(pos)] == old(page[..pos])
      ensures err == 0 <==> connected && ((corked && !urgent) || sent)
      ensures packets == old(packets) + if err == 0 then packet else []
      ensures connected && corked && !urgent ==> wire == old(wire) && pos == old(pos + reserved)
      ensures err == 0 && !(corked && !urgent) ==> wire == packets
    {
      if !connected {
        return -EIO;
      }
      err := Append(packet, corked && !urgent, sent);
    }

    /** `_bsr_no_send_page`: one segment of payload goes through the page; `more` says that another one follows. */
    method SendSegment(data: seq<int>, more: bool, sent: (bool, bool), recycle: bool) returns (err: int)
      requires Bounds() && Faithful() && reserved == 0 && |data| <= PAGE_SIZE
      modifies this`page, this`unsent, this`pos, this`reserved, this`wire, this`packets, page
      ensures Bounds() && Faithful() && reserved == 0 && corked == old(corked) && (page == old(page) || fresh(page))
      ensures packets == old(packets) + if err == 0 then data else []
      ensures err == 0 <==>
                && (old(pos) + |data| <= PAGE_SIZE || sent.0 || old(pos == unsent))
                && (more || sent.1 || (data == [] && old(pos == unsent)))
      ensures err == 0 && more && old(pos) + |data| <= PAGE_SIZE ==> unsent == old(unsent) && pos == old(pos) + |data|
      ensures err == 0 && more && old(pos) + |data| > PAGE_SIZE ==> unsent == 0 && pos == |data|
      ensures err == 0 && !more ==> wire == packets
    {
      hide Faithful;
      var ok := Prepare(|data|, sent.0, recycle);
      if !ok {
        return -EIO;
      }
      err := Append(data, more, sent.1);
    }

    /**
     * `_bsr_send_bio`: payload behind a packet, segment by segment. It follows what is in the stream already, in
     * order, and has all been handed out when the last segment has; after an error the segments before the one that
     * failed are in the stream. It succeeds exactly if what waits and the page, whenever it is full, can be flushed.
     */
    method SendPayload(segments: seq<seq<int>>, sent: nat -> (bool, bool), recycle: nat -> bool) returns (err: int)
      requires Bounds() && Faithful() && reserved == 0 && forall i :: 0 <= i < |segments| ==> |segments[i]| <= PAGE_SIZE
      modifies this`page, this`unsent, this`pos, this`reserved, this`wire, this`packets, page
      ensures Bounds() && Faithful() && reserved == 0 && corked == old(corked)
      ensures err == 0 ==> packets == old(packets) + Flat(segments) && (segments != [] ==> wire == packets)
      ensures err == 0 <==>
                && (sent(0).0 || old(pos) == 0 || old(pos == unsent))
                && forall i :: 0 <= i < |segments| ==> Goes(segments, sent, i)
      ensures err != 0 ==>
                exists n ::
                  && 0 <= n <= |segments| && packets == old(packets) + Flat(segments[..n])
                  && (forall i :: 0 <= i < n ==> Goes(segments, sent, i))
                  && (n == 0 || (n < |segments| && !Goes(segments, sent, n)))
    {
      hide Faithful, Goes;
      var ok := Prepare(PAGE_SIZE, sent(0).0, recycle(0));
      if !ok {
        assert packets == old(packets) + Flat(segments[..0]);
        return -EIO;
      }
      Shrink(0);
      for i := 0 to |segments|
        invariant Bounds() && Faithful() && reserved == 0 && corked == old(corked) && (page == old(page) || fresh(page))
        invariant packets == old(packets) + Flat(segments[..i])
        invariant i < |segments| ==> unsent == 0 && pos == Filled(segments, i)
        invariant forall j :: 0 <= j < i ==> Goes(segments, sent, j)
        invariant i > 0 && i == |segments| ==> wire == packets
      {
        FlatAppend(segments, i);
        GoesIf(segments, sent, i);
        err := SendSegment(segments[i], i + 1 < |segments|, sent(i + 1), recycle(i + 1));
        if err != 0 {
          return;
        }
      }
      assert segments[..|segments|] == segments;
      err := 0;
    }

    /** `_bsr_send_zc_bio` without copying: what waits goes first, then the payload directly. */
    method SendZeroCopy(payload: seq<int>, sent: (bool, bool)) returns (err: int)
      requires Bounds() && Faithful() && reserved == 0
      modifies this`unsent, this`pos, this`reserved, this`wire, this`packets
      ensures Bounds() && Faithful() && reserved == 0
      ensures packets == old(packets) + if err == 0 then payload else []
      ensures err == 0 <==> (sent.0 || old(pos == unsent)) && sent.1
      ensures err == 0 ==> wire == packets
    {
      err := Flush(sent.0);
      if err == 0 {
        if sent.1 {
          wire, packets := wire + payload, packets + payload;
        } else {
          err := -EIO;
        }
      }
    }

    method Cork()
      requires Bounds() && Faithful()
      modifies this`corked
      ensures Bounds() && Faithful() && corked
    {
      corked := true;
    }

    /** `bsr_uncork`; the stream's lock keeps it apart from a packet being prepared. */
    method Uncork(sent: bool)
      requires Bounds() && Faithful() && reserved == 0
      modifies this`unsent, this`pos, this`reserved, this`wire, this`corked
      ensures Bounds() && Faithful() && !corked && packets == old(packets)
      ensures wire == if sent then packets else old(wire)
    {
      var err := Flush(sent);
      corked := false;
    }

    /** `bsr_drop_unsent` when the connection is gone. */
    method DropUnsent()
      requires Bounds() && Faithful()
      modifies this`unsent, this`pos, this`reserved, this`corked, this`packets
      ensures Bounds() && Faithful() && !corked && reserved == 0 && packets == wire
    {
      corked := false;
      unsent, pos, reserved := 0, 0, 0;
      packets := wire;
    }
  }

  function Flat(segments: seq<seq<int>>): seq<int> {
    if segments == [] then [] else Flat(segments[..|segments| - 1]) + segments[|segments| - 1]
  }

  /** How far the page is filled when it is the turn of segment `i`: a segment that does not fit begins a new page. */
  function Filled(segments: seq<seq<int>>, i: nat): nat
    requires i <= |segments|
  {
    if i == 0 then 0
    else
      var n := Filled(segments, i - 1) + |segments[i - 1]|;
      if n <= PAGE_SIZE then n else |segments[i - 1]|
  }

  /** Segment `i` fits the page or the page is flushed for it, and the last one is flushed, unless there is nothing. */
  ghost predicate Goes(segments: seq<seq<int>>, sent: nat -> (bool, bool), i: nat)
    requires i < |segments|
  {
    && (Filled(segments, i) + |segments[i]| <= PAGE_SIZE || sent(i + 1).0)
    && (i + 1 < |segments| || sent(i + 1).1 || Filled(segments, i) + |segments[i]| == 0)
  }

  lemma GoesIf(segments: seq<seq<int>>, sent: nat -> (bool, bool), i: nat)
    requires i < |segments| && |segments[i]| <= PAGE_SIZE
    ensures Goes(segments, sent, i) <==>
              && (Filled(segments, i) + |segments[i]| <= PAGE_SIZE || sent(i + 1).0 || Filled(segments, i) == 0)
              && (i + 1 < |segments| || sent(i + 1).1 || (segments[i] == [] && Filled(segments, i) == 0))
    ensures Filled(segments, i + 1) == if Filled(segments, i) + |segments[i]| <= PAGE_SIZE
                                       then Filled(segments, i) + |segments[i]| else |segments[i]|
  {
  }

  lemma FlatAppend(segments: seq<seq<int>>, i: nat)
    requires i < |segments|
    ensures Flat(segments[..i + 1]) == Flat(segments[..i]) + segments[i]
  {
    assert segments[..i + 1][..i] == segments[..i];
  }

  /**
   * Behind a packet that waits, another is prepared and never sent; the next one needs a new page, and the flush
   * hands out bytes of no packet.
   */
  method PreparedNeverSent(packet: seq<int>) returns (s: Stream)
    requires |packet| == 4000
    ensures s.Bounds() && !s.Faithful() && s.packets == packet
  {
    hide Stream.Faithful;
    s := new Stream();
    s.Cork();
    var ok := s.Prepare(4000, true, true);
    var err := s.Send(packet, false, true, true);
    ok := s.Prepare(50, true, true);
    ok := s.Prepare(200, true, true);
  }
}

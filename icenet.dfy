/**
 * The IceNet device (struct icenet_device) and the packet engine of icenet.c:
 * posting transmit and receive buffers, reclaiming transmit completions,
 * draining receive completions under a budget, refilling the receive ring, and
 * the checksum-offload request sequence.
 *
 * Values the driver reads from the device are parameters: a COUNTS snapshot
 * (bv32) per ioread32 of that register, the lengths the RECV_COMP reads return,
 * and the successive values of CKSUM_COUNTS seen by the busy-wait loops. Nothing
 * ties them to the shadow queues. Every access to the request, completion and
 * checksum registers is appended to `io` in program order.
 */
module IceNet {
  import opened Words
  import opened SkBuff
  import opened CircBuf
  import opened ShadowQueue
  import opened Regs
  import opened Descriptors
  import opened Requests
  import opened RequestFields

  /** One access to the register file: a 64-bit write, or a read whose value is an input. */
  datatype Access = Write(reg: nat, word: U64) | Read(reg: nat)

  datatype Stats = Stats(txPackets: nat, txBytes: nat, txDropped: nat, rxPackets: nat, rxBytes: nat)

  function Writes(reg: nat, ws: seq<U64>): (r: seq<Access>)
    ensures |r| == |ws|
  {
    seq(|ws|, i requires 0 <= i < |ws| => Write(reg, ws[i]))
  }

  function Reads(reg: nat, n: nat): (r: seq<Access>)
    ensures |r| == n
  {
    seq(n, _ => Read(reg))
  }

  lemma WritesAppend(reg: nat, a: seq<U64>, b: seq<U64>)
    ensures Writes(reg, a + b) == Writes(reg, a) + Writes(reg, b)
  {}

  lemma ReadsAppend(reg: nat, m: nat, n: nat)
    ensures Reads(reg, m + n) == Reads(reg, m) + Reads(reg, n)
  {}

  /** One more descriptor of ws written: the trace of the first i + 2 grows by one write. */
  lemma WritesSnoc(reg: nat, ws: seq<U64>, i: nat)
    requires i + 1 < |ws|
    ensures Writes(reg, ws[..i + 2]) == Writes(reg, ws[..i + 1]) + [Write(reg, ws[i + 1])]
  {
    assert ws[..i + 2] == ws[..i + 1] + [ws[i + 1]];
    WritesAppend(reg, ws[..i + 1], [ws[i + 1]]);
  }

  /** The trace of ws[..k] is the write of ws[0] followed by the trace of ws[1..k]. */
  lemma WritesCons(reg: nat, ws: seq<U64>, k: nat)
    requires 1 <= k <= |ws|
    ensures Writes(reg, ws[..k]) == [Write(reg, ws[0])] + Writes(reg, ws[1..k])
  {
    assert ws[..k] == [ws[0]] + ws[1..k];
    WritesAppend(reg, [ws[0]], ws[1..k]);
  }

  /** The trace of ws[1..i + 2] is that of ws[1..i + 1] and one more write. */
  lemma WritesSlice(reg: nat, ws: seq<U64>, i: nat)
    requires i + 1 < |ws|
    ensures Writes(reg, ws[1..i + 2]) == Writes(reg, ws[1..i + 1]) + [Write(reg, ws[i + 1])]
  {
    assert ws[1..i + 2] == ws[1..i + 1] + [ws[i + 1]];
    WritesAppend(reg, ws[1..i + 1], [ws[i + 1]]);
  }

  lemma AppendAssoc<T>(a: seq<T>, b: seq<T>, c: seq<T>)
    ensures (a + b) + c == a + (b + c)
  {}

  lemma TraceAssoc<T>(a: seq<T>, b: seq<T>, c: seq<T>, d: seq<T>, e: seq<T>)
    ensures (((a + b) + c) + d) + e == a + (((b + c) + d) + e)
  {
    AppendAssoc(a, b, c);
    AppendAssoc(a, b + c, d);
    AppendAssoc(a, (b + c) + d, e);
  }

  function Clamp(n: int): nat
  {
    if n < 0 then 0 else n
  }

  // ----------------------------------------------------------------- receive

  function RecvReadyAll(bufs: seq<Skb>): (r: seq<Skb>)
    ensures |r| == |bufs|
  {
    seq(|bufs|, i requires 0 <= i < |bufs| => RecvReady(bufs[i]))
  }

  function RecvAddrs(bufs: seq<Skb>): (r: seq<U64>)
    ensures |r| == |bufs|
  {
    seq(|bufs|, i requires 0 <= i < |bufs| => RecvReady(bufs[i]).data)
  }

  /** A completed receive buffer as handed up: extended by the reported length, NET_IP_ALIGN pulled off. */
  function Received(skb: Skb, len: bv16, ipAlign: U64): Skb
  {
    Pull(Put(skb, len as int), ipAlign).(ipSummed := ChecksumUnnecessary)
  }

  function ReceivedAll(bufs: seq<Skb>, lens: seq<bv16>, ipAlign: U64): (r: seq<Skb>)
    requires |lens| == |bufs|
    ensures |r| == |bufs|
  {
    seq(|bufs|, i requires 0 <= i < |bufs| => Received(bufs[i], lens[i], ipAlign))
  }

  function SumLens(lens: seq<bv16>): nat
  {
    if lens == [] then 0 else SumLens(lens[..|lens| - 1]) + lens[|lens| - 1] as int
  }

  /** One more posted buffer: the queued buffers and RECV_REQ writes each grow by its aligned form. */
  lemma PostedSnoc(bufs: seq<Skb>, i: nat)
    requires i < |bufs|
    ensures RecvReadyAll(bufs[..i + 1]) == RecvReadyAll(bufs[..i]) + [RecvReady(bufs[i])]
    ensures Writes(RECV_REQ, RecvAddrs(bufs[..i + 1])) == Writes(RECV_REQ, RecvAddrs(bufs[..i])) + [Write(RECV_REQ, RecvReady(bufs[i]).data)]
  {
    assert bufs[..i + 1] == bufs[..i] + [bufs[i]];
    assert RecvAddrs(bufs[..i + 1]) == RecvAddrs(bufs[..i]) + [RecvReady(bufs[i]).data];
    WritesAppend(RECV_REQ, RecvAddrs(bufs[..i]), [RecvReady(bufs[i]).data]);
  }

  /**
   * One more completion taken from slot t of ring a: the buffers handed up, the
   * byte count and the RECV_COMP reads each grow by that completion.
   */
  lemma ReceivedSnoc(a: seq<Skb>, t0: int, i: nat, lens: seq<bv16>, ipAlign: U64)
    requires 0 <= t0 < |a| && i < |lens|
    ensures 0 <= Advance(t0, i, |a|) < |a|
    ensures Advance(t0, i + 1, |a|) == Next(Advance(t0, i, |a|), |a|)
    ensures ReceivedAll(Window(a, t0, i + 1), lens[..i + 1], ipAlign)
      == ReceivedAll(Window(a, t0, i), lens[..i], ipAlign) + [Received(a[Advance(t0, i, |a|)], lens[i], ipAlign)]
    ensures SumLens(lens[..i + 1]) == SumLens(lens[..i]) + lens[i] as int
    ensures Reads(RECV_COMP, i + 1) == Reads(RECV_COMP, i) + [Read(RECV_COMP)]
  {
    WindowSnoc(a, t0, i);
    AdvanceSnoc(t0, i, |a|);
    assert lens[..i + 1][..i] == lens[..i];
    ReadsAppend(RECV_COMP, i, 1);
  }

  // ------------------------------------------------------------ reclamation

  /** How many send entries one reclamation pops, and whether it hits BUG_ON on an empty queue. */
  datatype Reclaim = Reclaim(popped: nat, crashed: bool)

  /**
   * icenet_complete_send over queue contents q and n available completions: pop
   * whole buffers from the front while n > 0 and the next one's segments have all
   * completed; n > 0 with nothing left to pop is the BUG_ON.
   */
  function ReclaimSend(q: seq<Skb>, n: int): (r: Reclaim)
    ensures r.popped <= |q|
    ensures r.crashed ==> r.popped == |q|
    decreases q
  {
    if n <= 0 then Reclaim(0, false)
    else if q == [] then Reclaim(0, true)
    else if NSegments(q[0]) > n then Reclaim(0, false)
    else
      var r := ReclaimSend(q[1..], n - NSegments(q[0]));
      Reclaim(r.popped + 1, r.crashed)
  }

  /**
   * Reclamation pops a FIFO prefix whose segments fit in n, never retires a buffer
   * whose segments have not all completed (it stops exactly when the next buffer
   * needs more than what is left), and crashes exactly when the queue runs dry
   * with completions still unaccounted for.
   */
  lemma {:induction false} ReclaimSendSpec(q: seq<Skb>, n: int)
    requires n >= 0
    ensures TotalSegments(q[..ReclaimSend(q, n).popped]) <= n
    ensures var k := ReclaimSend(q, n).popped;
      !ReclaimSend(q, n).crashed && k < |q| ==> NSegments(q[k]) > n - TotalSegments(q[..k])
    ensures ReclaimSend(q, n).crashed <==> ReclaimSend(q, n).popped == |q| && TotalSegments(q) < n
    decreases q
  {
    if n == 0 || q == [] || NSegments(q[0]) > n {
      assert q[..0] == [];
    } else {
      var s := NSegments(q[0]);
      ReclaimSendSpec(q[1..], n - s);
      var k := ReclaimSend(q[1..], n - s).popped;
      assert q[..k + 1][1..] == q[1..][..k];
      assert q[..k + 1][0] == q[0];
    }
  }

  /**
   * Popping the whole buffer at position p keeps the reclamation of q accounted
   * for: p + 1 buffers popped so far, and the remaining completions for the rest.
   */
  lemma ReclaimStep(q: seq<Skb>, total: int, p: nat, n: int)
    requires p < |q| && NSegments(q[p]) <= n
    requires ReclaimSend(q, total) == Reclaim(p + ReclaimSend(q[p..], n).popped, ReclaimSend(q[p..], n).crashed)
    ensures ReclaimSend(q, total)
      == Reclaim(p + 1 + ReclaimSend(q[p + 1..], n - NSegments(q[p])).popped, ReclaimSend(q[p + 1..], n - NSegments(q[p])).crashed)
    ensures q[..p + 1] == q[..p] + [q[p]]
    ensures TotalSegments(q[..p + 1]) == TotalSegments(q[..p]) + NSegments(q[p])
  {
    assert q[p..][1..] == q[p + 1..];
    assert q[..p + 1] == q[..p] + [q[p]];
    TotalSegmentsSnoc(q[..p], q[p]);
  }

  /** Where reclamation of rest stops at once, and whether it crashes there. */
  lemma ReclaimStops(rest: seq<Skb>, n: int)
    ensures n <= 0 ==> ReclaimSend(rest, n) == Reclaim(0, false)
    ensures n > 0 && rest == [] ==> ReclaimSend(rest, n) == Reclaim(0, true)
    ensures n > 0 && rest != [] && NSegments(rest[0]) > n ==> ReclaimSend(rest, n) == Reclaim(0, false)
  {}

  // -------------------------------------------------------- checksum offload

  /** The checksum engine has queue room for need requests: (counts & 0xff) >= need. */
  predicate HasRoom(counts: bv16, need: int)
  {
    (counts & 0xff) as int >= need
  }

  /** The checksum engine has a response: ((counts >> 8) & 0xff) != 0. */
  predicate HasResponse(counts: bv16)
  {
    (counts >> 8) & 0xff != 0
  }

  /** The poll at which the first busy-wait of icenet_checksum_offload exits. */
  function FirstWithRoom(polls: seq<bv16>, need: int): (k: nat)
    requires exists j :: 0 <= j < |polls| && HasRoom(polls[j], need)
    ensures k < |polls| && HasRoom(polls[k], need)
    ensures forall j :: 0 <= j < k ==> !HasRoom(polls[j], need)
    decreases |polls|
  {
    if HasRoom(polls[0], need) then 0
    else
      assert exists j :: 0 <= j < |polls[1..]| && HasRoom(polls[1..][j], need) by {
        var j :| 0 <= j < |polls| && HasRoom(polls[j], need);
        assert polls[1..][j - 1] == polls[j];
      }
      1 + FirstWithRoom(polls[1..], need)
  }

  /** The poll at which the second busy-wait of icenet_checksum_offload exits. */
  function FirstWithResponse(polls: seq<bv16>): (k: nat)
    requires exists j :: 0 <= j < |polls| && HasResponse(polls[j])
    ensures k < |polls| && HasResponse(polls[k])
    ensures forall j :: 0 <= j < k ==> !HasResponse(polls[j])
    decreases |polls|
  {
    if HasResponse(polls[0]) then 0
    else
      assert exists j :: 0 <= j < |polls[1..]| && HasResponse(polls[1..][j]) by {
        var j :| 0 <= j < |polls| && HasResponse(polls[j]);
        assert polls[1..][j - 1] == polls[j];
      }
      1 + FirstWithResponse(polls[1..])
  }

  /** do { counts = ioread16(CKSUM_COUNTS); } while ((counts & 0xff) < need); */
  method WaitForRoom(polls: seq<bv16>, need: int) returns (k: nat)
    requires exists j :: 0 <= j < |polls| && HasRoom(polls[j], need)
    ensures k == FirstWithRoom(polls, need)
  {
    k := 0;
    while !HasRoom(polls[k], need)
      invariant k <= FirstWithRoom(polls, need)
      decreases FirstWithRoom(polls, need) - k
    {
      k := k + 1;
    }
  }

  /** do { counts = ioread16(CKSUM_COUNTS); } while (((counts >> 8) & 0xff) == 0); */
  method WaitForResponse(polls: seq<bv16>) returns (k: nat)
    requires exists j :: 0 <= j < |polls| && HasResponse(polls[j])
    ensures k == FirstWithResponse(polls)
  {
    k := 0;
    while !HasResponse(polls[k])
      invariant k <= FirstWithResponse(polls)
      decreases FirstWithResponse(polls) - k
    {
      k := k + 1;
    }
  }

  /**
   * The register accesses of a checksum offload that completes: poll until there
   * is room for every request, write the requests, poll until a response is
   * ready, read the response.
   */
  function CksumTrace(skb: Skb, depthPolls: seq<bv16>, readyPolls: seq<bv16>): seq<Access>
    requires exists j :: 0 <= j < |depthPolls| && HasRoom(depthPolls[j], NSegments(skb))
    requires exists j :: 0 <= j < |readyPolls| && HasResponse(readyPolls[j])
  {
    Reads(CKSUM_COUNTS, FirstWithRoom(depthPolls, NSegments(skb)) + 1)
    + Writes(CKSUM_REQ, CksumDescriptors(skb))
    + Reads(CKSUM_COUNTS, FirstWithResponse(readyPolls) + 1)
    + [Read(CKSUM_RESP)]
  }

  /**
   * The register accesses of a checksum offload stopped by BUG_ON: nothing if the
   * start address is out of range, else the first wait and the requests written
   * before the first fragment whose address is out of range.
   */
  function CksumCrashTrace(skb: Skb, depthPolls: seq<bv16>): seq<Access>
    requires exists j :: 0 <= j < |depthPolls| && HasRoom(depthPolls[j], NSegments(skb))
  {
    if !AddrFits(CksumStart(skb)) then []
    else
      Reads(CKSUM_COUNTS, FirstWithRoom(depthPolls, NSegments(skb)) + 1)
      + Writes(CKSUM_REQ, CksumDescriptors(skb)[..1 + FittingFrags(skb.frags)])
  }

  class Device {
    const sendCq: SkBuffCq
    const recvCq: SkBuffCq
    const netIpAlign: U64     // NET_IP_ALIGN
    const txThreshold: int     // CONFIG_ICENET_TX_INTERRUPT_THRESHOLD
    const txIrq: int
    const rxIrq: int
    var intmask: bv32          // the INTMASK register
    var io: seq<Access>        // accesses to the request, completion and checksum registers
    var stats: Stats
    var stopped: bool          // the transmit queue is stopped (netif_stop_queue)
    var pollScheduled: bool    // a NAPI receive poll is scheduled
    var released: seq<Skb>     // transmit buffers given back (consumed or dropped)
    var delivered: seq<Skb>    // receive buffers handed to the stack

    ghost predicate Valid()
      reads sendCq, recvCq
    {
      sendCq.Valid() && recvCq.Valid() && sendCq != recvCq && sendCq.entries != recvCq.entries
      && sendCq.entries.Length == recvCq.entries.Length
    }

    /** CONFIG_ICENET_RING_SIZE */
    function RingSize(): nat
    {
      sendCq.entries.Length
    }

    /** The device state icenet_probe sets up, with both shadow queues initialised empty. */
    constructor (ringSize: nat, ipAlign: U64, threshold: int, txLine: int, rxLine: int, mask: bv32)
      requires IsPowerOfTwo(ringSize)
      ensures Valid() && RingSize() == ringSize
      ensures fresh(sendCq) && fresh(recvCq) && fresh(sendCq.entries) && fresh(recvCq.entries)
      ensures sendCq.Contents() == [] && recvCq.Contents() == []
      ensures netIpAlign == ipAlign && txThreshold == threshold && txIrq == txLine && rxIrq == rxLine
      ensures intmask == mask && io == [] && stats == Stats(0, 0, 0, 0, 0)
      ensures !stopped && !pollScheduled && released == [] && delivered == []
    {
      sendCq := new SkBuffCq(ringSize);
      recvCq := new SkBuffCq(ringSize);
      netIpAlign, txThreshold, txIrq, rxIrq := ipAlign, threshold, txLine, rxLine;
      intmask, io, stats := mask, [], Stats(0, 0, 0, 0, 0);
      stopped, pollScheduled, released, delivered := false, false, [], [];
    }

    /** set_intmask */
    method SetIntmask(mask: bv32)
      modifies this`intmask
      ensures intmask == SetBits(old(intmask), mask)
    {
      intmask := intmask | mask;
    }

    /** clear_intmask */
    method ClearIntmask(mask: bv32)
      modifies this`intmask
      ensures intmask == ClearBits(old(intmask), mask)
    {
      intmask := intmask & !mask;
    }

    /** send_space: room for a send is bounded both by the device ring and by the shadow queue. */
    function SendSpace(counts: bv32): (s: int)
      reads sendCq, recvCq
      requires Valid()
      ensures s <= SendReqAvail(counts) && s <= sendCq.Space()
      ensures s == SendReqAvail(counts) || s == sendCq.Space()
    {
      var avail := SendReqAvail(counts);
      var space := sendCq.Space();
      if avail < space then avail else space
    }

    /** post_send_frag */
    method PostSendFrag(frag: Frag, last: bool)
      modifies this`io
      ensures io == old(io) + [Write(SEND_REQ, Descriptor(!last, frag.size, frag.addr))]
    {
      var addr := frag.addr;
      var len := frag.size;
      var packet := Descriptor(!last, len, addr);
      io := io + [Write(SEND_REQ, packet)];
    }

    /**
     * icenet_post_send: write the head descriptor and then one per fragment, and
     * only then push the buffer on the send shadow queue.
     */
    method PostSend(skb: Skb)
      requires Valid()
      modifies this`io, sendCq`head, sendCq.entries
      ensures Valid()
      ensures io == old(io) + Writes(SEND_REQ, SendDescriptors(skb, netIpAlign))
      ensures sendCq.tail == old(sendCq.tail) && sendCq.head == Next(old(sendCq.head), RingSize())
      ensures sendCq.entries[..] == old(sendCq.entries[..])[old(sendCq.head) := skb]
      ensures old(sendCq.Space()) > 0 ==> sendCq.Contents() == old(sendCq.Contents()) + [skb]
    {
      var len: U64;
      var partial: bool;
      if |skb.frags| > 0 {
        len := HeadLen(skb);
        partial := true;
      } else {
        len := skb.len;
        partial := false;
      }
      var addr := Sub64(skb.data, netIpAlign);
      len := Add64(len, netIpAlign);
      io := io + [Write(SEND_REQ, Descriptor(partial, len, addr))];
      ghost var ws := SendDescriptors(skb, netIpAlign);
      assert Writes(SEND_REQ, ws[..1]) == [Write(SEND_REQ, ws[0])];
      var i := 0;
      while i < |skb.frags|
        invariant 0 <= i <= |skb.frags|
        invariant io == old(io) + Writes(SEND_REQ, ws[..i + 1])
        modifies this`io
      {
        PostSendFrag(skb.frags[i], i == |skb.frags| - 1);
        FragDescriptorAt(skb.frags, i);
        assert ws[i + 1] == FragDescriptors(skb.frags)[i];
        WritesSnoc(SEND_REQ, ws, i);
        AppendAssoc(old(io), Writes(SEND_REQ, ws[..i + 1]), [Write(SEND_REQ, ws[i + 1])]);
        i := i + 1;
      }
      assert ws[..i + 1] == ws;
      assert sendCq.head == old(sendCq.head) && sendCq.tail == old(sendCq.tail);
      assert sendCq.Contents() == old(sendCq.Contents());
      sendCq.Push(skb);
    }

    /**
     * icenet_post_recv: reserve the bytes up to the next 8-byte boundary, write the
     * aligned address to RECV_REQ, push the buffer on the receive shadow queue.
     */
    method PostRecv(skb: Skb)
      requires Valid()
      modifies this`io, recvCq`head, recvCq.entries
      ensures Valid()
      ensures io == old(io) + [Write(RECV_REQ, RecvReady(skb).data)]
      ensures recvCq.tail == old(recvCq.tail) && recvCq.head == Next(old(recvCq.head), RingSize())
      ensures recvCq.entries[..] == old(recvCq.entries[..])[old(recvCq.head) := RecvReady(skb)]
      ensures old(recvCq.Space()) > 0 ==> recvCq.Contents() == old(recvCq.Contents()) + [RecvReady(skb)]
    {
      var buf := RecvReady(skb);
      io := io + [Write(RECV_REQ, buf.data)];
      recvCq.Push(buf);
    }

    /** The inner loop of icenet_complete_send: one SEND_COMP read per segment. */
    method AckSendComps(nsegs: nat)
      modifies this`io
      ensures io == old(io) + Reads(SEND_COMP, nsegs)
    {
      var i := 0;
      while i < nsegs
        invariant 0 <= i <= nsegs
        invariant io == old(io) + Reads(SEND_COMP, i)
      {
        io := io + [Read(SEND_COMP)];
        ReadsAppend(SEND_COMP, i, 1);
        i := i + 1;
      }
    }

    /**
     * icenet_complete_send: retire whole transmit buffers in FIFO order, reading one
     * SEND_COMP per segment, as ReclaimSend prescribes; counts is the COUNTS value read
     * on entry.
     */
    method CompleteSend(counts: bv32) returns (crashed: bool)
      requires Valid()
      modifies this`io, this`released, sendCq`tail
      ensures Valid()
      ensures sendCq.head == old(sendCq.head)
      ensures var q := old(sendCq.Contents());
        var r := ReclaimSend(q, SendCompAvail(counts));
        && crashed == r.crashed
        && sendCq.Contents() == q[r.popped..]
        && released == old(released) + q[..r.popped]
        && io == old(io) + Reads(SEND_COMP, TotalSegments(q[..r.popped]))
    {
      ghost var q := sendCq.Contents();
      ghost var total := SendCompAvail(counts);
      ghost var released0, io0 := released, io;
      ghost var p := 0;
      var n := SendCompAvail(counts);
      crashed := false;
      while n > 0
        invariant sendCq.head == old(sendCq.head)
        invariant Reclaiming(q, total, p, n, released0, io0)
        decreases n
      {
        if sendCq.Count() == 0 {
          ReclaimStops(q[p..], n);
          crashed := true;
          return;
        }
        var nsegs := sendCq.TailNSegments();
        assert q[p..][0] == q[p];
        if nsegs > n {
          ReclaimStops(q[p..], n);
          break;
        }
        RetireOne(nsegs, q, total, p, n, released0, io0);
        n := n - nsegs;
        p := p + 1;
      }
      ReclaimStops(q[p..], n);
    }

    /**
     * The state of icenet_complete_send after popping the first p buffers of q with
     * n of total completions left: they are released, their segments acknowledged,
     * and reclaiming the rest with n finishes the reclamation of q with total.
     */
    ghost predicate Reclaiming(q: seq<Skb>, total: int, p: int, n: int, released0: seq<Skb>, io0: seq<Access>)
      reads this, sendCq, recvCq, sendCq.entries
    {
      && Valid() && 0 <= p <= |q| && sendCq.Contents() == q[p..]
      && n == total - TotalSegments(q[..p])
      && released == released0 + q[..p]
      && io == io0 + Reads(SEND_COMP, TotalSegments(q[..p]))
      && ReclaimSend(q, total) == Reclaim(p + ReclaimSend(q[p..], n).popped, ReclaimSend(q[p..], n).crashed)
    }

    /**
     * One pass of the icenet_complete_send loop once the buffer at tail is known to
     * have completed: acknowledge its segments, pop it and release it.
     */
    method RetireOne(nsegs: nat, ghost q: seq<Skb>, ghost total: int, ghost p: int, ghost n: int,
                     ghost released0: seq<Skb>, ghost io0: seq<Access>)
      requires Reclaiming(q, total, p, n, released0, io0)
      requires sendCq.Count() > 0 && nsegs == sendCq.TailNSegments() <= n
      modifies this`io, this`released, sendCq`tail
      ensures p < |q| && nsegs == NSegments(q[p])
      ensures Reclaiming(q, total, p + 1, n - nsegs, released0, io0)
      ensures sendCq.head == old(sendCq.head)
    {
      assert q[p..][0] == q[p];
      ReclaimStep(q, total, p, n);
      AckSendComps(nsegs);
      var skb := sendCq.Pop();
      released := released + [skb];
      AppendAssoc(released0, q[..p], [q[p]]);
      AppendAssoc(io0, Reads(SEND_COMP, TotalSegments(q[..p])), Reads(SEND_COMP, nsegs));
      ReadsAppend(SEND_COMP, TotalSegments(q[..p]), nsegs);
    }

    /**
     * icenet_complete_recv: take min(recv_comp_avail, budget) completions; each reads
     * one length from RECV_COMP, pops the receive shadow queue, and hands the buffer
     * up with that length. There is no emptiness check: the buffers handed up are the
     * next slots from tail, which are the live entries when the device reported no
     * more completions than buffers were posted.
     */
    method CompleteRecv(budget: int, counts: bv32, lens: seq<bv16>) returns (n: int)
      requires Valid()
      requires |lens| >= Min(RecvCompAvail(counts), budget)
      modifies this`io, this`stats, this`delivered, recvCq`tail
      ensures Valid()
      ensures n == Min(RecvCompAvail(counts), budget)
      ensures recvCq.head == old(recvCq.head)
      ensures recvCq.tail == Advance(old(recvCq.tail), Clamp(n), RingSize())
      ensures delivered == old(delivered)
        + ReceivedAll(Window(recvCq.entries[..], old(recvCq.tail), Clamp(n)), lens[..Clamp(n)], netIpAlign)
      ensures io == old(io) + Reads(RECV_COMP, Clamp(n))
      ensures stats == old(stats).(rxPackets := old(stats).rxPackets + Clamp(n),
                                   rxBytes := old(stats).rxBytes + SumLens(lens[..Clamp(n)]))
      ensures n <= old(recvCq.Count()) ==>
        && Window(recvCq.entries[..], old(recvCq.tail), Clamp(n)) == old(recvCq.Contents())[..Clamp(n)]
        && recvCq.Contents() == old(recvCq.Contents())[Clamp(n)..]
    {
      ghost var slots := recvCq.entries[..];
      ghost var t0 := recvCq.tail;
      ghost var delivered0, io0, stats0 := delivered, io, stats;
      n := RecvCompAvail(counts);
      if n > budget {
        n := budget;
      }
      var i := 0;
      while i < n
        invariant i <= Clamp(n) && i <= |lens| && recvCq.head == old(recvCq.head)
        invariant Receiving(slots, t0, i, lens, delivered0, io0, stats0)
      {
        ReceiveOne(lens[i], slots, t0, i, lens, delivered0, io0, stats0);
        i := i + 1;
      }
      ghost var k := Clamp(n);
      assert i == k;
      if n <= old(recvCq.Count()) {
        TailAdvanced(slots, recvCq.head, t0, k);
      }
    }

    /**
     * The state of icenet_complete_recv after i completions, starting from tail t0
     * of ring slots: tail has moved i slots, and the i buffers, their RECV_COMP reads
     * and their lengths have been handed up, logged and counted.
     */
    ghost predicate Receiving(slots: seq<Skb>, t0: int, i: int, lens: seq<bv16>,
                              delivered0: seq<Skb>, io0: seq<Access>, stats0: Stats)
      reads this, recvCq
    {
      && recvCq.Valid() && 0 <= t0 < |slots| == recvCq.entries.Length && 0 <= i <= |lens|
      && recvCq.tail == Advance(t0, i, |slots|)
      && delivered == delivered0 + ReceivedAll(Window(slots, t0, i), lens[..i], netIpAlign)
      && io == io0 + Reads(RECV_COMP, i)
      && stats == stats0.(rxPackets := stats0.rxPackets + i, rxBytes := stats0.rxBytes + SumLens(lens[..i]))
    }

    /**
     * The body of the icenet_complete_recv loop: read the length from RECV_COMP, pop
     * the buffer at tail, extend it by the length, pull NET_IP_ALIGN off its front,
     * mark its checksum verified, count it, and hand it up.
     */
    method ReceiveOne(len: bv16, ghost slots: seq<Skb>, ghost t0: int, ghost i: int, ghost lens: seq<bv16>,
                      ghost delivered0: seq<Skb>, ghost io0: seq<Access>, ghost stats0: Stats)
      requires Receiving(slots, t0, i, lens, delivered0, io0, stats0)
      requires slots == recvCq.entries[..] && i < |lens| && len == lens[i]
      modifies this`io, this`stats, this`delivered, recvCq`tail
      ensures Receiving(slots, t0, i + 1, lens, delivered0, io0, stats0)
      ensures recvCq.head == old(recvCq.head)
    {
      ReceivedSnoc(slots, t0, i, lens, netIpAlign);
      io := io + [Read(RECV_COMP)];
      var skb := recvCq.Pop();
      skb := Put(skb, len as int);
      skb := Pull(skb, netIpAlign);
      skb := skb.(ipSummed := ChecksumUnnecessary);
      stats := stats.(rxPackets := stats.rxPackets + 1, rxBytes := stats.rxBytes + len as int);
      delivered := delivered + [skb];
      AppendAssoc(delivered0, ReceivedAll(Window(slots, t0, i), lens[..i], netIpAlign), [skb]);
      AppendAssoc(io0, Reads(RECV_COMP, i), [Read(RECV_COMP)]);
    }

    /**
     * icenet_alloc_recv: post min(n, recv_req_avail, SPACE(recv_cq)) fresh buffers,
     * taken in order from what netdev_alloc_skb returns; counts is the COUNTS value
     * read on entry.
     */
    method AllocRecv(n: int, counts: bv32, bufs: seq<Skb>) returns (m: int)
      requires Valid()
      requires |bufs| >= Min(Min(n, RecvReqAvail(counts)), recvCq.Space())
      modifies this`io, recvCq`head, recvCq.entries
      ensures Valid()
      ensures m == Min(Min(n, RecvReqAvail(counts)), old(recvCq.Space()))
      ensures recvCq.tail == old(recvCq.tail)
      ensures recvCq.Contents() == old(recvCq.Contents()) + RecvReadyAll(bufs[..Clamp(m)])
      ensures io == old(io) + Writes(RECV_REQ, RecvAddrs(bufs[..Clamp(m)]))
    {
      ghost var queued := recvCq.Contents();
      var hw := RecvReqAvail(counts);
      var sw := recvCq.Space();
      m := n;
      if hw < m {
        m := hw;
      }
      if sw < m {
        m := sw;
      }
      var i := 0;
      while i < m
        invariant 0 <= i <= Clamp(m) && i <= |bufs| && m <= sw
        invariant Valid() && recvCq.tail == old(recvCq.tail)
        invariant recvCq.Space() == sw - i
        invariant recvCq.Contents() == queued + RecvReadyAll(bufs[..i])
        invariant io == old(io) + Writes(RECV_REQ, RecvAddrs(bufs[..i]))
      {
        PostRecv(bufs[i]);
        PostedSnoc(bufs, i);
        AppendAssoc(queued, RecvReadyAll(bufs[..i]), [RecvReady(bufs[i])]);
        AppendAssoc(old(io), Writes(RECV_REQ, RecvAddrs(bufs[..i])), [Write(RECV_REQ, RecvReady(bufs[i]).data)]);
        i := i + 1;
      }
      assert i == Clamp(m);
    }

    /**
     * icenet_checksum_offload: BUG_ON unless the checksum start address fits in 48
     * bits; wait for room for every request; write the head request and one per
     * fragment (BUG_ON at the first fragment address that does not fit); wait for
     * the response, store it csum_offset bytes past the checksum start, and mark the
     * buffer CHECKSUM_NONE.
     */
    method ChecksumOffload(skb: Skb, depthPolls: seq<bv16>, readyPolls: seq<bv16>, result: bv16)
      returns (out: Skb, crashed: bool)
      requires exists j :: 0 <= j < |depthPolls| && HasRoom(depthPolls[j], NSegments(skb))
      requires exists j :: 0 <= j < |readyPolls| && HasResponse(readyPolls[j])
      modifies this`io
      ensures crashed <==> !CksumAddrsFit(skb)
      ensures crashed ==> io == old(io) + CksumCrashTrace(skb, depthPolls)
      ensures !crashed ==> io == old(io) + CksumTrace(skb, depthPolls, readyPolls)
      ensures !crashed ==> out == WithChecksum(skb, result)
    {
      ghost var io0 := io;
      out := skb;
      var start := CksumStart(skb);
      var end: U64;
      var partial: bool;
      if |skb.frags| > 0 {
        end := Add64(skb.data, HeadLen(skb));
        partial := true;
      } else {
        end := skb.end;
        partial := false;
      }
      var len := Sub64(end, start);
      var paddr := start;
      if !AddrFits(paddr) {
        assert CksumCrashTrace(skb, depthPolls) == [];
        assert io == io0 + [];
        crashed := true;
        return;
      }
      var request := TopBits(partial, len) * TWO_48 + paddr;
      CksumHeadRequest(skb);
      ghost var ws := CksumDescriptors(skb);
      assert request == ws[0];
      ghost var fit := FittingFrags(skb.frags);

      var k := WaitForRoom(depthPolls, |skb.frags| + 1);
      ghost var wait := Reads(CKSUM_COUNTS, k + 1);
      assert wait == Reads(CKSUM_COUNTS, FirstWithRoom(depthPolls, NSegments(skb)) + 1);
      io := io + Reads(CKSUM_COUNTS, k + 1);
      io := io + [Write(CKSUM_REQ, request)];
      crashed := WriteFragRequests(skb);
      WritesCons(CKSUM_REQ, ws, 1 + fit);
      AppendAssoc(io0 + wait, [Write(CKSUM_REQ, ws[0])], Writes(CKSUM_REQ, ws[1..1 + fit]));
      AppendAssoc(io0, wait, Writes(CKSUM_REQ, ws[..1 + fit]));
      if crashed {
        assert CksumCrashTrace(skb, depthPolls) == wait + Writes(CKSUM_REQ, ws[..1 + fit]);
        return;
      }
      assert ws[..1 + fit] == ws;

      k := WaitForResponse(readyPolls);
      ghost var ready := Reads(CKSUM_COUNTS, k + 1);
      assert ready == Reads(CKSUM_COUNTS, FirstWithResponse(readyPolls) + 1);
      io := io + Reads(CKSUM_COUNTS, k + 1) + [Read(CKSUM_RESP)];
      assert CksumTrace(skb, depthPolls, readyPolls) == ((wait + Writes(CKSUM_REQ, ws)) + ready) + [Read(CKSUM_RESP)];
      TraceAssoc(io0, wait, Writes(CKSUM_REQ, ws), ready, [Read(CKSUM_RESP)]);
      out := skb.(stores := skb.stores + [Store(Add64(start, skb.csumOffset), result)], ipSummed := ChecksumNone);
    }

    /**
     * The request loop of icenet_checksum_offload: one request per fragment,
     * flagged partial unless it is the last, stopping at the BUG_ON for the first
     * fragment address that does not fit in 48 bits.
     */
    method WriteFragRequests(skb: Skb) returns (crashed: bool)
      modifies this`io
      ensures crashed <==> FittingFrags(skb.frags) < |skb.frags|
      ensures io == old(io) + Writes(CKSUM_REQ, CksumDescriptors(skb)[1..1 + FittingFrags(skb.frags)])
    {
      ghost var ws := CksumDescriptors(skb);
      ghost var fit := FittingFrags(skb.frags);
      ghost var io0 := io;
      assert ws[1..1] == [];
      var i := 0;
      while i < |skb.frags|
        invariant 0 <= i <= fit
        invariant io == io0 + Writes(CKSUM_REQ, ws[1..i + 1])
      {
        var partial := i < |skb.frags| - 1;
        var len := skb.frags[i].size;
        var paddr := skb.frags[i].addr;
        if !AddrFits(paddr) {
          assert i == fit;
          return true;
        }
        var request := TopBits(partial, len) * TWO_48 + paddr;
        CksumFragRequest(skb, i);
        io := io + [Write(CKSUM_REQ, request)];
        WritesSlice(CKSUM_REQ, ws, i);
        AppendAssoc(io0, Writes(CKSUM_REQ, ws[1..i + 1]), [Write(CKSUM_REQ, ws[i + 1])]);
        i := i + 1;
      }
      assert i == fit;
      return false;
    }
  }
}

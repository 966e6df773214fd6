/**
 * The handlers of main.c that drive the packet engine: admission control in
 * icenet_start_xmit, the interrupt-mask hysteresis of the TX interrupt, the RX
 * interrupt, the budgeted receive poll, and the mask and refill steps of
 * icenet_open and icenet_stop. Each handler runs as one sequential method, as it
 * does with its lock held; COUNTS is read afresh at every send_space,
 * complete_send, complete_recv and alloc_recv, so each read is its own parameter.
 */
module Driver {
  import opened Words
  import opened SkBuff
  import opened CircBuf
  import opened ShadowQueue
  import opened Regs
  import opened Requests
  import opened IceNet

  /** netdev_tx_t */
  datatype TxResult = TxOk | TxBusy

  /** irqreturn_t */
  datatype IrqResult = IrqNone | IrqHandled

  /** The two checksum busy-waits of a CHECKSUM_PARTIAL buffer end within the polls given. */
  predicate CksumPollsEnd(skb: Skb, depthPolls: seq<bv16>, readyPolls: seq<bv16>)
  {
    skb.ipSummed == ChecksumPartial ==>
      && (exists j :: 0 <= j < |depthPolls| && HasRoom(depthPolls[j], NSegments(skb)))
      && (exists j :: 0 <= j < |readyPolls| && HasResponse(readyPolls[j]))
  }

  /** The buffer icenet_post_send is given: checksummed first when the stack asked for offload. */
  function Outgoing(skb: Skb, result: bv16): Skb
  {
    if skb.ipSummed == ChecksumPartial then WithChecksum(skb, result) else skb
  }

  /** Checksum offload changes neither the length nor the segments of the buffer it sends. */
  lemma OutgoingShape(skb: Skb, result: bv16)
    ensures Outgoing(skb, result).len == skb.len
    ensures Outgoing(skb, result).frags == skb.frags && NSegments(Outgoing(skb, result)) == NSegments(skb)
    ensures Outgoing(skb, result).data == skb.data && HeadLen(Outgoing(skb, result)) == HeadLen(skb)
  {}

  /** Clearing ICENET_INTMASK_BOTH clears the TX bit and the RX bit and nothing else. */
  lemma ClearBoth(w: bv32)
    ensures ClearBits(w, INTMASK_BOTH) == ClearBits(ClearBits(w, INTMASK_TX), INTMASK_RX)
    ensures ClearBits(w, INTMASK_BOTH) & INTMASK_TX == 0 && ClearBits(w, INTMASK_BOTH) & INTMASK_RX == 0
  {
    assert ClearBits(w, INTMASK_BOTH) == w & 0xffff_fffc;
    assert ClearBits(ClearBits(w, INTMASK_TX), INTMASK_RX) == (w & 0xffff_fffe) & 0xffff_fffd;
  }

  /**
   * The register accesses of a send once there is room: the checksum offload when
   * the stack asked for it, then the descriptors of the buffer as posted.
   */
  function XmitTrace(skb: Skb, depthPolls: seq<bv16>, readyPolls: seq<bv16>, result: bv16, ipAlign: U64): seq<Access>
    requires CksumPollsEnd(skb, depthPolls, readyPolls)
  {
    (if skb.ipSummed == ChecksumPartial then CksumTrace(skb, depthPolls, readyPolls) else [])
    + Writes(SEND_REQ, SendDescriptors(Outgoing(skb, result), ipAlign))
  }

  /**
   * The send path of icenet_start_xmit once there is room: offload the checksum if
   * the stack asked for it, post the buffer, count it.
   */
  method SendXmit(d: Device, skb: Skb, depthPolls: seq<bv16>, readyPolls: seq<bv16>, result: bv16)
    returns (crashed: bool)
    requires d.Valid() && d.sendCq.Space() > 0
    requires CksumPollsEnd(skb, depthPolls, readyPolls)
    modifies d`io, d`stats, d.sendCq`head, d.sendCq.entries
    ensures d.Valid() && d.sendCq.tail == old(d.sendCq.tail)
    ensures crashed <==> skb.ipSummed == ChecksumPartial && !CksumAddrsFit(skb)
    ensures crashed ==>
      && d.io == old(d.io) + CksumCrashTrace(skb, depthPolls)
      && d.stats == old(d.stats) && d.sendCq.Contents() == old(d.sendCq.Contents())
    ensures !crashed ==>
      && d.io == old(d.io) + XmitTrace(skb, depthPolls, readyPolls, result, d.netIpAlign)
      && d.sendCq.Contents() == old(d.sendCq.Contents()) + [Outgoing(skb, result)]
      && d.stats == old(d.stats).(txPackets := old(d.stats).txPackets + 1, txBytes := old(d.stats).txBytes + skb.len)
  {
    ghost var io0 := d.io;
    var sent := skb;
    crashed := false;
    if skb.ipSummed == ChecksumPartial {
      sent, crashed := d.ChecksumOffload(skb, depthPolls, readyPolls, result);
      if crashed {
        return;
      }
    }
    ghost var cksum := d.io[|io0|..];
    assert d.io == io0 + cksum;
    d.PostSend(sent);
    AppendAssoc(io0, cksum, Writes(SEND_REQ, SendDescriptors(sent, d.netIpAlign)));
    d.stats := d.stats.(txPackets := d.stats.txPackets + 1, txBytes := d.stats.txBytes + sent.len);
  }

  /** The transmit side of the device: the state icenet_start_xmit and the TX interrupt act on. */
  datatype TxSide = TxSide(queue: seq<Skb>, io: seq<Access>, released: seq<Skb>, stats: Stats, stopped: bool, intmask: bv32)

  ghost function TxView(d: Device): TxSide
    reads d, d.sendCq, d.sendCq.entries
    requires d.sendCq.Valid()
  {
    TxSide(d.sendCq.Contents(), d.io, d.released, d.stats, d.stopped, d.intmask)
  }

  /** send_space over a send shadow queue holding queue in a ring of ringSize slots. */
  function SendSpaceOf(ringSize: int, queue: seq<Skb>, counts: bv32): int
  {
    Min(SendReqAvail(counts), ringSize - 1 - |queue|)
  }

  lemma SendSpaceView(d: Device, counts: bv32)
    requires d.Valid()
    ensures d.SendSpace(counts) == SendSpaceOf(d.RingSize(), d.sendCq.Contents(), counts)
    ensures d.sendCq.Space() == d.RingSize() - 1 - |d.sendCq.Contents()|
  {}

  /** Reclaiming with n completions: retired buffers leave the queue, are released and their completions read. */
  function Reclaimed(s: TxSide, rc: Reclaim): TxSide
    requires rc.popped <= |s.queue|
  {
    s.(queue := s.queue[rc.popped..], released := s.released + s.queue[..rc.popped],
       io := s.io + Reads(SEND_COMP, TotalSegments(s.queue[..rc.popped])))
  }

  /** The reclamation icenet_start_xmit runs: only when send_space was short of the buffer's segments. */
  function XmitReclaim(q: seq<Skb>, space: int, nsegs: int, compCounts: bv32): (r: Reclaim)
    ensures r.popped <= |q|
  {
    if space < nsegs then ReclaimSend(q, SendCompAvail(compCounts)) else Reclaim(0, false)
  }

  /**
   * The TX interrupt bit after the admission check of icenet_start_xmit: set when
   * send_space was below the threshold, as it was otherwise.
   */
  function AdmissionMask(mask: bv32, space: int, threshold: int): bv32
  {
    if space < threshold then SetBits(mask, INTMASK_TX) else mask
  }

  /** The outcome of the admission steps: the new state, the send_space decided on, and a BUG_ON. */
  datatype Admitted = Admitted(side: TxSide, room: int, crashed: bool)

  /**
   * The admission steps of icenet_start_xmit on s: read send_space (COUNTS value
   * counts), set the TX bit when it is below the threshold, and only when it is
   * short of nsegs reclaim (COUNTS value compCounts) and read send_space again
   * (COUNTS value recheck).
   */
  function Admission(s: TxSide, ringSize: int, threshold: int, nsegs: int,
                     counts: bv32, compCounts: bv32, recheck: bv32): Admitted
  {
    var s0 := SendSpaceOf(ringSize, s.queue, counts);
    var rc := XmitReclaim(s.queue, s0, nsegs, compCounts);
    var after := Reclaimed(s, rc).(intmask := AdmissionMask(s.intmask, s0, threshold));
    Admitted(after, if s0 < nsegs then SendSpaceOf(ringSize, after.queue, recheck) else s0, rc.crashed)
  }

  /** The outcome of a transmit: the new state, the value returned, and a BUG_ON. */
  datatype Xmitted = Xmitted(side: TxSide, result: TxResult, crashed: bool)

  /**
   * icenet_start_xmit after the admission steps, given the send_space room it
   * decides on. Short of room (tx_err): stop the queue, set the TX bit, drop the
   * buffer, return NETDEV_TX_BUSY. Otherwise offload the checksum if the stack
   * asked for it (BUG_ON on an address beyond 48 bits), post the buffer, count it.
   */
  function Dispatch(s: TxSide, room: int, skb: Skb, depthPolls: seq<bv16>, readyPolls: seq<bv16>,
                    result: bv16, ipAlign: U64): Xmitted
    requires CksumPollsEnd(skb, depthPolls, readyPolls)
  {
    if room < NSegments(skb) then
      Xmitted(s.(stopped := true, intmask := SetBits(s.intmask, INTMASK_TX), released := s.released + [skb],
                 stats := s.stats.(txDropped := s.stats.txDropped + 1)),
              TxBusy, false)
    else if skb.ipSummed == ChecksumPartial && !CksumAddrsFit(skb) then
      Xmitted(s.(io := s.io + CksumCrashTrace(skb, depthPolls)), TxOk, true)
    else
      Xmitted(s.(io := s.io + XmitTrace(skb, depthPolls, readyPolls, result, ipAlign),
                 queue := s.queue + [Outgoing(skb, result)],
                 stats := s.stats.(txPackets := s.stats.txPackets + 1, txBytes := s.stats.txBytes + skb.len)),
              TxOk, false)
  }

  /** icenet_start_xmit on the transmit side s; after a BUG_ON the result is meaningless. */
  function Xmit(s: TxSide, ringSize: int, threshold: int, ipAlign: U64, skb: Skb,
                counts: bv32, compCounts: bv32, recheck: bv32,
                depthPolls: seq<bv16>, readyPolls: seq<bv16>, result: bv16): Xmitted
    requires CksumPollsEnd(skb, depthPolls, readyPolls)
  {
    var a := Admission(s, ringSize, threshold, NSegments(skb), counts, compCounts, recheck);
    if a.crashed then Xmitted(a.side, TxOk, true)
    else Dispatch(a.side, a.room, skb, depthPolls, readyPolls, result, ipAlign)
  }

  /**
   * The admission steps of icenet_start_xmit: read send_space, set the TX interrupt
   * bit when it is below the threshold, and only when it is short of nsegs reclaim
   * completed sends and read send_space again.
   */
  method MakeRoom(d: Device, nsegs: int, counts: bv32, compCounts: bv32, recheck: bv32)
    returns (room: int, crashed: bool)
    requires d.Valid()
    modifies d`intmask, d`io, d`released, d.sendCq`tail
    ensures d.Valid() && d.sendCq.head == old(d.sendCq.head)
    ensures var a := Admission(old(TxView(d)), d.RingSize(), d.txThreshold, nsegs, counts, compCounts, recheck);
      && TxView(d) == a.side && crashed == a.crashed && (!crashed ==> room == a.room)
  {
    ghost var s := TxView(d);
    SendSpaceView(d, counts);
    room := d.SendSpace(counts);
    ghost var rc := XmitReclaim(s.queue, room, nsegs, compCounts);
    ghost var mask := AdmissionMask(s.intmask, room, d.txThreshold);
    if room < d.txThreshold {
      d.SetIntmask(INTMASK_TX);
    }
    assert d.intmask == mask;
    crashed := false;
    if room < nsegs {
      crashed := d.CompleteSend(compCounts);
      assert TxView(d) == Reclaimed(s, rc).(intmask := mask);
      if crashed {
        return;
      }
      SendSpaceView(d, recheck);
      room := d.SendSpace(recheck);
    } else {
      assert s.queue[..0] == [] && s.queue[0..] == s.queue;
      assert Reads(SEND_COMP, 0) == [];
      assert TxView(d) == Reclaimed(s, rc).(intmask := mask);
    }
  }

  /** The dispatch step of icenet_start_xmit on the device, as Dispatch prescribes. */
  method Admit(d: Device, skb: Skb, room: int, depthPolls: seq<bv16>, readyPolls: seq<bv16>, result: bv16)
    returns (r: TxResult, crashed: bool)
    requires d.Valid() && room <= d.sendCq.Space()
    requires CksumPollsEnd(skb, depthPolls, readyPolls)
    modifies d`intmask, d`io, d`stats, d`stopped, d`released, d.sendCq`head, d.sendCq.entries
    ensures d.Valid() && d.sendCq.tail == old(d.sendCq.tail)
    ensures var x := Dispatch(old(TxView(d)), room, skb, depthPolls, readyPolls, result, d.netIpAlign);
      && TxView(d) == x.side && crashed == x.crashed && (!crashed ==> r == x.result)
  {
    if room < |skb.frags| + 1 {
      d.stopped := true;
      d.SetIntmask(INTMASK_TX);
      d.released := d.released + [skb];
      d.stats := d.stats.(txDropped := d.stats.txDropped + 1);
      return TxBusy, false;
    }
    crashed := SendXmit(d, skb, depthPolls, readyPolls, result);
    r := TxOk;
  }

  /**
   * icenet_start_xmit. counts is the COUNTS value of the first send_space,
   * compCounts that of the reclamation and recheck that of the second send_space;
   * the polls and result are what the checksum offload reads. Its effect on the
   * transmit side is Xmit's, whose properties the lemmas below prove.
   */
  method StartXmit(d: Device, skb: Skb, counts: bv32, compCounts: bv32, recheck: bv32,
                   depthPolls: seq<bv16>, readyPolls: seq<bv16>, result: bv16)
    returns (r: TxResult, crashed: bool)
    requires d.Valid()
    requires CksumPollsEnd(skb, depthPolls, readyPolls)
    modifies d`intmask, d`io, d`stats, d`stopped, d`released, d.sendCq`head, d.sendCq`tail, d.sendCq.entries
    ensures d.Valid()
    ensures var x := Xmit(old(TxView(d)), d.RingSize(), d.txThreshold, d.netIpAlign, skb,
                          counts, compCounts, recheck, depthPolls, readyPolls, result);
      && TxView(d) == x.side && crashed == x.crashed && (!crashed ==> r == x.result)
  {
    var room;
    room, crashed := MakeRoom(d, |skb.frags| + 1, counts, compCounts, recheck);
    r := TxOk;
    if crashed {
      return;
    }
    SendSpaceView(d, recheck);
    r, crashed := Admit(d, skb, room, depthPolls, readyPolls, result);
  }

  // ------------------------------------------------------- transmit properties

  /** An access to one of the checksum engine's registers. */
  predicate IsCksumAccess(a: Access)
  {
    a.reg == CKSUM_COUNTS || a.reg == CKSUM_REQ || a.reg == CKSUM_RESP
  }

  /** A completed checksum offload touches only the checksum registers, and at least one request is written. */
  lemma CksumTraceRegs(skb: Skb, depthPolls: seq<bv16>, readyPolls: seq<bv16>)
    requires CksumPollsEnd(skb, depthPolls, readyPolls) && skb.ipSummed == ChecksumPartial
    ensures |CksumTrace(skb, depthPolls, readyPolls)| > 0
    ensures forall k :: 0 <= k < |CksumTrace(skb, depthPolls, readyPolls)| ==> IsCksumAccess(CksumTrace(skb, depthPolls, readyPolls)[k])
    ensures exists k :: 0 <= k < |CksumTrace(skb, depthPolls, readyPolls)| && CksumTrace(skb, depthPolls, readyPolls)[k] == Write(CKSUM_REQ, CksumDescriptors(skb)[0])
  {
    var w := Reads(CKSUM_COUNTS, FirstWithRoom(depthPolls, NSegments(skb)) + 1);
    var ws := Writes(CKSUM_REQ, CksumDescriptors(skb));
    var r := Reads(CKSUM_COUNTS, FirstWithResponse(readyPolls) + 1);
    var t := CksumTrace(skb, depthPolls, readyPolls);
    assert t == ((w + ws) + r) + [Read(CKSUM_RESP)];
    assert t[|w|] == Write(CKSUM_REQ, CksumDescriptors(skb)[0]);
    forall k | 0 <= k < |t|
      ensures IsCksumAccess(t[k])
    {
      if k < |w| {
        assert t[k] == w[k];
      } else if k < |w| + |ws| {
        assert t[k] == ws[k - |w|];
      } else if k < |w| + |ws| + |r| {
        assert t[k] == r[k - |w| - |ws|];
      }
    }
  }

  /**
   * The interrupt mask after icenet_start_xmit: the TX bit is set (SetBits) when
   * the first send_space was below the threshold or the buffer was dropped, and
   * the mask is otherwise as it was.
   */
  lemma XmitMask(s: TxSide, ringSize: int, threshold: int, ipAlign: U64, skb: Skb,
                 counts: bv32, compCounts: bv32, recheck: bv32,
                 depthPolls: seq<bv16>, readyPolls: seq<bv16>, result: bv16)
    requires CksumPollsEnd(skb, depthPolls, readyPolls)
    ensures var x := Xmit(s, ringSize, threshold, ipAlign, skb, counts, compCounts, recheck, depthPolls, readyPolls, result);
      var dropped := !x.crashed && x.result == TxBusy;
      && (SendSpaceOf(ringSize, s.queue, counts) < threshold || dropped ==> x.side.intmask == SetBits(s.intmask, INTMASK_TX))
      && (SendSpaceOf(ringSize, s.queue, counts) >= threshold && !dropped ==> x.side.intmask == s.intmask)
  {
    var a := Admission(s, ringSize, threshold, NSegments(skb), counts, compCounts, recheck);
    var x := Xmit(s, ringSize, threshold, ipAlign, skb, counts, compCounts, recheck, depthPolls, readyPolls, result);
    var m := AdmissionMask(s.intmask, SendSpaceOf(ringSize, s.queue, counts), threshold);
    assert a.side.intmask == m;
    if !a.crashed {
      DispatchMask(a.side, a.room, skb, depthPolls, readyPolls, result, ipAlign);
      SetClearIdempotent(s.intmask, INTMASK_TX);
    }
  }

  /** Dispatch sets the TX bit, and reports a drop, exactly when room is short. */
  lemma DispatchMask(s: TxSide, room: int, skb: Skb, depthPolls: seq<bv16>, readyPolls: seq<bv16>,
                     result: bv16, ipAlign: U64)
    requires CksumPollsEnd(skb, depthPolls, readyPolls)
    ensures var x := Dispatch(s, room, skb, depthPolls, readyPolls, result, ipAlign);
      && x.side.intmask == (if room < NSegments(skb) then SetBits(s.intmask, INTMASK_TX) else s.intmask)
      && (!x.crashed && x.result == TxBusy <==> room < NSegments(skb))
  {}

  /**
   * icenet_start_xmit reclaims only when the first send_space is short of the
   * buffer's segments; otherwise no completion is read and nothing is retired.
   */
  lemma XmitReclaimsOnlyWhenShort(s: TxSide, ringSize: int, threshold: int, ipAlign: U64, skb: Skb,
                                  counts: bv32, compCounts: bv32, recheck: bv32,
                                  depthPolls: seq<bv16>, readyPolls: seq<bv16>, result: bv16)
    requires CksumPollsEnd(skb, depthPolls, readyPolls)
    ensures var a := Admission(s, ringSize, threshold, NSegments(skb), counts, compCounts, recheck);
      SendSpaceOf(ringSize, s.queue, counts) >= NSegments(skb) ==>
        && !a.crashed && a.room == SendSpaceOf(ringSize, s.queue, counts)
        && a.side.queue == s.queue && a.side.io == s.io && a.side.released == s.released
    ensures var a := Admission(s, ringSize, threshold, NSegments(skb), counts, compCounts, recheck);
      SendSpaceOf(ringSize, s.queue, counts) < NSegments(skb) ==>
        var rc := ReclaimSend(s.queue, SendCompAvail(compCounts));
        && a.crashed == rc.crashed && a.side.queue == s.queue[rc.popped..]
        && a.side.released == s.released + s.queue[..rc.popped]
        && (!a.crashed ==> a.room == SendSpaceOf(ringSize, a.side.queue, recheck))
  {
    var s0 := SendSpaceOf(ringSize, s.queue, counts);
    if s0 >= NSegments(skb) {
      assert s.queue[..0] == [] && s.queue[0..] == s.queue;
      assert Reads(SEND_COMP, 0) == [];
    }
  }

  /**
   * icenet_start_xmit drops the buffer exactly when send_space, after any
   * reclamation, is short of its segments: NETDEV_TX_BUSY, queue stopped, TX bit
   * set, tx_dropped counted, the buffer released, and nothing posted: the queue
   * only lost what was reclaimed and the only accesses are the SEND_COMP reads.
   */
  lemma XmitDrop(s: TxSide, ringSize: int, threshold: int, ipAlign: U64, skb: Skb,
                 counts: bv32, compCounts: bv32, recheck: bv32,
                 depthPolls: seq<bv16>, readyPolls: seq<bv16>, result: bv16)
    requires CksumPollsEnd(skb, depthPolls, readyPolls)
    ensures var a := Admission(s, ringSize, threshold, NSegments(skb), counts, compCounts, recheck);
      var x := Xmit(s, ringSize, threshold, ipAlign, skb, counts, compCounts, recheck, depthPolls, readyPolls, result);
      !a.crashed ==> (x.result == TxBusy <==> a.room < NSegments(skb))
    ensures var a := Admission(s, ringSize, threshold, NSegments(skb), counts, compCounts, recheck);
      var x := Xmit(s, ringSize, threshold, ipAlign, skb, counts, compCounts, recheck, depthPolls, readyPolls, result);
      !a.crashed && a.room < NSegments(skb) ==>
        && !x.crashed && x.side.stopped && x.side.intmask & INTMASK_TX == INTMASK_TX
        && x.side.queue == a.side.queue && |x.side.queue| <= |s.queue|
        && x.side.released == a.side.released + [skb]
        && x.side.stats == s.stats.(txDropped := s.stats.txDropped + 1)
        && x.side.io[..|s.io|] == s.io
        && (forall k :: |s.io| <= k < |x.side.io| ==> x.side.io[k] == Read(SEND_COMP))
  {
    var a := Admission(s, ringSize, threshold, NSegments(skb), counts, compCounts, recheck);
    var rc := XmitReclaim(s.queue, SendSpaceOf(ringSize, s.queue, counts), NSegments(skb), compCounts);
    var acks := Reads(SEND_COMP, TotalSegments(s.queue[..rc.popped]));
    assert a.side.io == s.io + acks;
    assert forall k :: |s.io| <= k < |a.side.io| ==> a.side.io[k] == acks[k - |s.io|];
  }

  /**
   * When icenet_start_xmit posts, the buffer's segments fit both the device ring
   * and the shadow queue (nsegs <= send_space <= SPACE(send_cq)), so the push never
   * overflows: the buffer, checksummed when asked, joins the back of what remains
   * queued, and tx_packets and tx_bytes count it.
   */
  lemma XmitPost(s: TxSide, ringSize: int, threshold: int, ipAlign: U64, skb: Skb,
                 counts: bv32, compCounts: bv32, recheck: bv32,
                 depthPolls: seq<bv16>, readyPolls: seq<bv16>, result: bv16)
    requires CksumPollsEnd(skb, depthPolls, readyPolls)
    ensures var a := Admission(s, ringSize, threshold, NSegments(skb), counts, compCounts, recheck);
      var x := Xmit(s, ringSize, threshold, ipAlign, skb, counts, compCounts, recheck, depthPolls, readyPolls, result);
      !x.crashed && x.result == TxOk ==>
        && NSegments(skb) <= a.room <= ringSize - 1 - |a.side.queue|
        && |x.side.queue| == |a.side.queue| + 1 <= ringSize - 1
        && x.side.queue == a.side.queue + [Outgoing(skb, result)]
        && x.side.released == a.side.released && x.side.stopped == s.stopped
        && x.side.stats == s.stats.(txPackets := s.stats.txPackets + 1, txBytes := s.stats.txBytes + skb.len)
  {
    var s0 := SendSpaceOf(ringSize, s.queue, counts);
    if s0 >= NSegments(skb) {
      assert s.queue[..0] == [] && s.queue[0..] == s.queue;
    }
  }

  /**
   * In a send, the accesses after the reclamation are the checksum offload's,
   * present exactly when the buffer is CHECKSUM_PARTIAL, and then the SEND_REQ
   * descriptors of the buffer as posted; so the offload finishes before the first
   * descriptor is written.
   */
  lemma XmitChecksumFirst(s: TxSide, ringSize: int, threshold: int, ipAlign: U64, skb: Skb,
                          counts: bv32, compCounts: bv32, recheck: bv32,
                          depthPolls: seq<bv16>, readyPolls: seq<bv16>, result: bv16)
    requires CksumPollsEnd(skb, depthPolls, readyPolls)
    ensures var a := Admission(s, ringSize, threshold, NSegments(skb), counts, compCounts, recheck);
      var x := Xmit(s, ringSize, threshold, ipAlign, skb, counts, compCounts, recheck, depthPolls, readyPolls, result);
      var posted := Writes(SEND_REQ, SendDescriptors(Outgoing(skb, result), ipAlign));
      !x.crashed && x.result == TxOk ==>
        && |a.side.io| + |posted| <= |x.side.io|
        && x.side.io[..|a.side.io|] == a.side.io
        && x.side.io[|x.side.io| - |posted|..] == posted
        && (forall k :: |a.side.io| <= k < |x.side.io| - |posted| ==> IsCksumAccess(x.side.io[k]))
        && (|a.side.io| < |x.side.io| - |posted| <==> skb.ipSummed == ChecksumPartial)
  {
    var a := Admission(s, ringSize, threshold, NSegments(skb), counts, compCounts, recheck);
    var x := Xmit(s, ringSize, threshold, ipAlign, skb, counts, compCounts, recheck, depthPolls, readyPolls, result);
    var posted := Writes(SEND_REQ, SendDescriptors(Outgoing(skb, result), ipAlign));
    if !x.crashed && x.result == TxOk {
      var mid := if skb.ipSummed == ChecksumPartial then CksumTrace(skb, depthPolls, readyPolls) else [];
      assert x.side.io == a.side.io + (mid + posted);
      AppendAssoc(a.side.io, mid, posted);
      if skb.ipSummed == ChecksumPartial {
        CksumTraceRegs(skb, depthPolls, readyPolls);
      }
      ThreeParts(a.side.io, mid, posted);
    }
  }

  /** Where the three parts of a concatenated trace sit. */
  lemma ThreeParts(pre: seq<Access>, mid: seq<Access>, post: seq<Access>)
    ensures (pre + mid + post)[..|pre|] == pre
    ensures (pre + mid + post)[|pre| + |mid|..] == post
    ensures forall k :: |pre| <= k < |pre| + |mid| ==> (pre + mid + post)[k] == mid[k - |pre|]
  {}

  /**
   * BUG_ON in icenet_start_xmit fires only when reclamation finds completions with
   * the queue empty, or when a buffer about to be sent needs a checksum and one of
   * its addresses does not fit in 48 bits.
   */
  lemma XmitCrash(s: TxSide, ringSize: int, threshold: int, ipAlign: U64, skb: Skb,
                  counts: bv32, compCounts: bv32, recheck: bv32,
                  depthPolls: seq<bv16>, readyPolls: seq<bv16>, result: bv16)
    requires CksumPollsEnd(skb, depthPolls, readyPolls)
    ensures var a := Admission(s, ringSize, threshold, NSegments(skb), counts, compCounts, recheck);
      var x := Xmit(s, ringSize, threshold, ipAlign, skb, counts, compCounts, recheck, depthPolls, readyPolls, result);
      x.crashed <==>
        || (SendSpaceOf(ringSize, s.queue, counts) < NSegments(skb) && ReclaimSend(s.queue, SendCompAvail(compCounts)).crashed)
        || (!a.crashed && a.room >= NSegments(skb) && skb.ipSummed == ChecksumPartial && !CksumAddrsFit(skb))
  {}

  // ------------------------------------------------------------ TX interrupt

  /** The outcome of the TX interrupt handler: the new state and a BUG_ON. */
  datatype Serviced = Serviced(side: TxSide, crashed: bool)

  /**
   * icenet_tx_isr on its own line: reclaim (COUNTS value compCounts), read
   * send_space (COUNTS value counts), clear the TX bit when it has reached the
   * threshold, wake a stopped queue when there is any room.
   */
  function TxInterrupt(s: TxSide, ringSize: int, threshold: int, compCounts: bv32, counts: bv32): Serviced
  {
    var rc := ReclaimSend(s.queue, SendCompAvail(compCounts));
    var after := Reclaimed(s, rc);
    var space := SendSpaceOf(ringSize, after.queue, counts);
    if rc.crashed then Serviced(after, true)
    else
      Serviced(after.(intmask := if space >= threshold then ClearBits(s.intmask, INTMASK_TX) else s.intmask,
                      stopped := s.stopped && space <= 0),
               false)
  }

  /**
   * The hysteresis of icenet_tx_isr: after it the TX bit is clear exactly when the
   * space after reclamation reached the threshold or the bit was clear already;
   * no other bit changes; the queue stays stopped exactly when it was stopped and
   * there is no room; the retired buffers are the oldest, in order.
   */
  lemma TxInterruptMask(s: TxSide, ringSize: int, threshold: int, compCounts: bv32, counts: bv32)
    ensures var y := TxInterrupt(s, ringSize, threshold, compCounts, counts);
      var rc := ReclaimSend(s.queue, SendCompAvail(compCounts));
      var space := SendSpaceOf(ringSize, s.queue[rc.popped..], counts);
      && y.crashed == rc.crashed
      && y.side.queue == s.queue[rc.popped..] && y.side.released == s.released + s.queue[..rc.popped]
      && y.side.stats == s.stats
      && (!y.crashed ==>
           && y.side.intmask & !INTMASK_TX == s.intmask & !INTMASK_TX
           && (y.side.intmask & INTMASK_TX == 0 <==> space >= threshold || s.intmask & INTMASK_TX == 0)
           && (y.side.stopped <==> s.stopped && space <= 0))
  {
    var y := TxInterrupt(s, ringSize, threshold, compCounts, counts);
    if !y.crashed && y.side.intmask != s.intmask {
      assert y.side.intmask == ClearBits(s.intmask, INTMASK_TX);
    }
  }

  /**
   * A buffer dropped for lack of room leaves the queue stopped with the TX
   * interrupt enabled; a TX interrupt that then finds at least threshold slots,
   * with a positive threshold, disables it again and wakes the queue.
   */
  lemma DropThenWake(s: TxSide, ringSize: int, threshold: int, ipAlign: U64, skb: Skb,
                     counts: bv32, compCounts: bv32, recheck: bv32,
                     depthPolls: seq<bv16>, readyPolls: seq<bv16>, result: bv16,
                     isrComp: bv32, isrCounts: bv32)
    requires CksumPollsEnd(skb, depthPolls, readyPolls)
    requires threshold > 0
    ensures var x := Xmit(s, ringSize, threshold, ipAlign, skb, counts, compCounts, recheck, depthPolls, readyPolls, result);
      var y := TxInterrupt(x.side, ringSize, threshold, isrComp, isrCounts);
      var rc := ReclaimSend(x.side.queue, SendCompAvail(isrComp));
      !x.crashed && x.result == TxBusy ==>
        && x.side.stopped && x.side.intmask & INTMASK_TX == INTMASK_TX
        && (!y.crashed && SendSpaceOf(ringSize, x.side.queue[rc.popped..], isrCounts) >= threshold ==>
             !y.side.stopped && y.side.intmask & INTMASK_TX == 0)
  {
    XmitDrop(s, ringSize, threshold, ipAlign, skb, counts, compCounts, recheck, depthPolls, readyPolls, result);
    var x := Xmit(s, ringSize, threshold, ipAlign, skb, counts, compCounts, recheck, depthPolls, readyPolls, result);
    TxInterruptMask(x.side, ringSize, threshold, isrComp, isrCounts);
  }

  /**
   * icenet_tx_isr: nothing unless the interrupt is its own line; otherwise what
   * TxInterrupt prescribes, under the lock.
   */
  method TxIsr(d: Device, irq: int, compCounts: bv32, counts: bv32) returns (r: IrqResult, crashed: bool)
    requires d.Valid()
    modifies d`intmask, d`io, d`released, d`stopped, d.sendCq`tail
    ensures d.Valid()
    ensures irq != d.txIrq ==> r == IrqNone && !crashed && TxView(d) == old(TxView(d))
    ensures irq == d.txIrq ==>
      var y := TxInterrupt(old(TxView(d)), d.RingSize(), d.txThreshold, compCounts, counts);
      && TxView(d) == y.side && crashed == y.crashed && (!crashed ==> r == IrqHandled)
  {
    if irq != d.txIrq {
      return IrqNone, false;
    }
    ghost var s := TxView(d);
    crashed := d.CompleteSend(compCounts);
    r := IrqHandled;
    ghost var rc := ReclaimSend(s.queue, SendCompAvail(compCounts));
    assert TxView(d) == Reclaimed(s, rc);
    if crashed {
      return;
    }
    SendSpaceView(d, counts);
    var space := d.SendSpace(counts);
    ghost var y := TxInterrupt(s, d.RingSize(), d.txThreshold, compCounts, counts);
    assert space == SendSpaceOf(d.RingSize(), s.queue[rc.popped..], counts);
    if space >= d.txThreshold {
      d.ClearIntmask(INTMASK_TX);
    }
    assert d.intmask == y.side.intmask;
    if space > 0 && d.stopped {
      d.stopped := false;
    }
    assert d.stopped == y.side.stopped;
  }

  // ------------------------------------------------------------------ receive

  /**
   * icenet_rx_isr: nothing unless the interrupt is its own line; otherwise mask
   * the RX interrupt and schedule the receive poll.
   */
  method RxIsr(d: Device, irq: int) returns (r: IrqResult)
    modifies d`intmask, d`pollScheduled
    ensures irq != d.rxIrq ==> r == IrqNone && d.intmask == old(d.intmask) && d.pollScheduled == old(d.pollScheduled)
    ensures irq == d.rxIrq ==> r == IrqHandled && d.intmask == ClearBits(old(d.intmask), INTMASK_RX) && d.pollScheduled
  {
    if irq != d.rxIrq {
      return IrqNone;
    }
    d.ClearIntmask(INTMASK_RX);
    d.pollScheduled := true;
    r := IrqHandled;
  }

  /** Setting or clearing the RX bit leaves the TX bit alone, and the other way round. */
  lemma MaskBitsIndependent(w: bv32)
    ensures SetBits(w, INTMASK_RX) & INTMASK_TX == w & INTMASK_TX
    ensures ClearBits(w, INTMASK_RX) & INTMASK_TX == w & INTMASK_TX
    ensures SetBits(w, INTMASK_TX) & INTMASK_RX == w & INTMASK_RX
    ensures ClearBits(w, INTMASK_TX) & INTMASK_RX == w & INTMASK_RX
  {
    assert SetBits(w, INTMASK_RX) == w | 2 && ClearBits(w, INTMASK_RX) == w & 0xffff_fffd;
    assert SetBits(w, INTMASK_TX) == w | 1 && ClearBits(w, INTMASK_TX) == w & 0xffff_fffe;
  }

  /**
   * icenet_rx_poll: drain up to budget receive completions (COUNTS value counts,
   * lengths lens), refill as many buffers (COUNTS value allocCounts, buffers bufs),
   * BUG_ON unless the refill matched the drain, and when the budget was not used
   * up leave polling mode and unmask the RX interrupt. refilled is what
   * icenet_alloc_recv returned. When the device reported no more completions than
   * buffers were posted, the buffers handed up are the oldest posted ones, and the
   * refill falls short only for want of room in the device's request ring.
   */
  method RxPoll(d: Device, budget: int, counts: bv32, lens: seq<bv16>, allocCounts: bv32, bufs: seq<Skb>)
    returns (completed: int, crashed: bool, refilled: int)
    requires d.Valid()
    requires |lens| >= Min(RecvCompAvail(counts), budget) && |bufs| >= Min(RecvCompAvail(counts), budget)
    modifies d`io, d`stats, d`delivered, d`intmask, d`pollScheduled, d.recvCq`head, d.recvCq`tail, d.recvCq.entries
    ensures d.Valid()
    ensures completed == Min(RecvCompAvail(counts), budget) && completed <= budget
    ensures refilled == Min(Min(completed, RecvReqAvail(allocCounts)),
                             CircSpace(old(d.recvCq.head), Advance(old(d.recvCq.tail), Clamp(completed), d.RingSize()), d.RingSize()))
    ensures crashed <==> refilled != completed
    ensures d.delivered == old(d.delivered)
      + ReceivedAll(Window(old(d.recvCq.entries[..]), old(d.recvCq.tail), Clamp(completed)), lens[..Clamp(completed)], d.netIpAlign)
    ensures d.io == old(d.io) + Reads(RECV_COMP, Clamp(completed)) + Writes(RECV_REQ, RecvAddrs(bufs[..Clamp(refilled)]))
    ensures d.stats == old(d.stats).(rxPackets := old(d.stats).rxPackets + Clamp(completed),
                                     rxBytes := old(d.stats).rxBytes + SumLens(lens[..Clamp(completed)]))
    ensures completed <= old(d.recvCq.Count()) ==>
      && refilled == Min(completed, RecvReqAvail(allocCounts))
      && d.delivered == old(d.delivered) + ReceivedAll(old(d.recvCq.Contents())[..Clamp(completed)], lens[..Clamp(completed)], d.netIpAlign)
      && d.recvCq.Contents() == old(d.recvCq.Contents())[Clamp(completed)..] + RecvReadyAll(bufs[..Clamp(refilled)])
    ensures crashed ==> d.intmask == old(d.intmask) && d.pollScheduled == old(d.pollScheduled)
    ensures !crashed && completed < budget ==> d.intmask == SetBits(old(d.intmask), INTMASK_RX) && !d.pollScheduled
    ensures !crashed && completed >= budget ==> d.intmask == old(d.intmask) && d.pollScheduled == old(d.pollScheduled)
  {
    ghost var slots := d.recvCq.entries[..];
    ghost var queued := d.recvCq.Contents();
    ghost var count0 := d.recvCq.Count();
    completed := d.CompleteRecv(budget, counts, lens);
    assert d.recvCq.entries[..] == slots;
    ghost var io1 := d.io;
    ghost var delivered1 := d.delivered;
    ghost var mid := d.recvCq.Contents();
    if completed <= count0 {
      assert |mid| == count0 - Clamp(completed);
      assert d.recvCq.Space() == d.RingSize() - 1 - count0 + Clamp(completed);
    }
    var m := d.AllocRecv(completed, allocCounts, bufs);
    refilled := m;
    assert d.delivered == delivered1;
    crashed := refilled != completed;
    if crashed {
      return;
    }
    if completed < budget {
      d.pollScheduled := false;
      d.SetIntmask(INTMASK_RX);
    }
  }

  /**
   * The refill and mask steps of icenet_open: post up to CONFIG_ICENET_RING_SIZE
   * receive buffers (COUNTS value counts), start the transmit queue, unmask the RX
   * interrupt. The ring-size bound never binds, since the shadow queue has at most
   * RingSize() - 1 free slots; posted is the count posted.
   */
  method Open(d: Device, counts: bv32, bufs: seq<Skb>) returns (posted: int)
    requires d.Valid()
    requires |bufs| >= Min(RecvReqAvail(counts), d.recvCq.Space())
    modifies d`io, d`intmask, d`stopped, d.recvCq`head, d.recvCq.entries
    ensures d.Valid()
    ensures posted == Min(RecvReqAvail(counts), old(d.recvCq.Space())) && 0 <= posted < d.RingSize()
    ensures d.recvCq.Contents() == old(d.recvCq.Contents()) + RecvReadyAll(bufs[..posted])
    ensures d.io == old(d.io) + Writes(RECV_REQ, RecvAddrs(bufs[..posted]))
    ensures !d.stopped && d.intmask == SetBits(old(d.intmask), INTMASK_RX)
  {
    posted := d.AllocRecv(d.RingSize(), counts, bufs);
    d.stopped := false;
    d.SetIntmask(INTMASK_RX);
  }

  /** The mask step of icenet_stop: mask both interrupts and stop the transmit queue. */
  method Stop(d: Device)
    modifies d`intmask, d`stopped
    ensures d.intmask == ClearBits(old(d.intmask), INTMASK_BOTH) && d.stopped
  {
    d.ClearIntmask(INTMASK_BOTH);
    d.stopped := true;
  }
}

# IceNet packet engine in Dafny

A model of the packet engine of the IceNet NIC Linux driver
(drivers/net/ethernet/icenet). It covers the parts that are sequential bookkeeping
over a few memory-mapped registers and two circular shadow queues:

- the shadow completion queue `sk_buff_cq` and the `CIRC_CNT`/`CIRC_SPACE` index
  arithmetic behind it;
- the register helpers of `icenet.h`: decoding the packed COUNTS word, setting and
  clearing interrupt-mask bits, `send_space`, and the DMA alignment macros;
- the transmit and receive engine of `icenet.c`: 64-bit descriptor packing,
  multi-segment transmit posting, aligned receive posting, FIFO reclamation of
  transmit completions, budgeted receive draining, capacity-bounded receive refill,
  and the checksum-offload request sequence;
- the handlers of `main.c`: admission control in `icenet_start_xmit`, the
  interrupt-mask hysteresis of `icenet_tx_isr`, `icenet_rx_isr`, the budgeted
  `icenet_rx_poll`, and the refill and mask steps of `icenet_open` and `icenet_stop`.

Each handler is one sequential method that runs with its lock held. Values the
driver reads from the device are parameters, and nothing ties them to the shadow
queues:

- a COUNTS snapshot (`bv32`) for each `ioread32` of that register;
- the lengths the RECV_COMP reads return;
- the successive CKSUM_COUNTS values the busy-waits see;
- the checksum result.

Every register access to a request, completion or checksum register is appended to
the device's `io` trace in program order. A write records its 64-bit word. So
statements such as "the checksum offload finishes before the first SEND_REQ write"
are statements about this trace. A `BUG_ON` that fires is a `crashed` result. The
state it leaves is the state at the moment it fired.

Modules, in dependency order:

- `Words`: `uint64_t` arithmetic with explicit wrap-around.
- `CircBuf`: the circular-buffer macros on C `int`s, written with a two's-complement AND.
- `SkBuff`: the packet buffer, reduced to the fields the engine uses.
- `ShadowQueue`: the class `SkBuffCq` over an array.
- `Regs`: the pure helpers of `icenet.h`.
- `Descriptors`: the 64-bit descriptor word.
- `Requests` and `RequestFields`: the words written for one buffer, and their decoding.
- `IceNet`: the class `Device` and the engine of `icenet.c`.
- `Driver`: the handlers of `main.c`.

The transmit side of `main.c` is also specified on values. `TxSide` holds the
transmit state. The value-level functions are:

- `Admission`: the admission steps;
- `Dispatch`: dropping or posting the buffer;
- `Xmit`: the whole of `icenet_start_xmit`;
- `TxInterrupt`: the TX interrupt handler.

The methods `StartXmit` and `TxIsr` are proved to change the device exactly as
these functions say. The lemmas about the functions then state the promises of
`main.c`.

## Model

| member | source | states |
|---|---|---|
| Words.Add64 | drivers/net/ethernet/icenet/icenet.c:29 | `len += NET_IP_ALIGN` on uint64_t: the exact sum whenever it does not overflow |
| Words.Sub64 | drivers/net/ethernet/icenet/icenet.c:28 | `addr -= NET_IP_ALIGN` on uintptr_t: the exact difference whenever it does not underflow |
| Words.WrapIsMod | drivers/net/ethernet/icenet/icenet.c:28-29 | both wrapping operations are the exact result reduced modulo 2^64 |
| Words.AddSub | drivers/net/ethernet/icenet/icenet.c:47-50 | subtracting what was added gives the word back, overflow or not |
| CircBuf.AndLowMask | drivers/net/ethernet/icenet/skbuff_cq.h:30 | for a power-of-two R, `x & (R - 1)` is x mod R, including negative x |
| CircBuf.CircBounds | drivers/net/ethernet/icenet/skbuff_cq.h:17-18 | with head and tail in [0, R), COUNT is the distance from tail forward to head, and COUNT + SPACE = R - 1 |
| CircBuf.NextIndex | drivers/net/ethernet/icenet/skbuff_cq.h:38 | `(i + 1) & (R - 1)` steps an index forward, wrapping from R - 1 to 0 |
| CircBuf.AdvanceLinear | drivers/net/ethernet/icenet/skbuff_cq.h:30 | n < R steps from an index in range pass the end of the ring at most once |
| ShadowQueue.SkBuffCq.Count | drivers/net/ethernet/icenet/skbuff_cq.h:17 | SK_BUFF_CQ_COUNT is in [0, R) and is the forward distance from tail to head |
| ShadowQueue.SkBuffCq.Space | drivers/net/ethernet/icenet/skbuff_cq.h:18 | SK_BUFF_CQ_SPACE is in [0, R) and equals R - 1 - COUNT, so at most R - 1 entries are live |
| ShadowQueue.SkBuffCq.Init | drivers/net/ethernet/icenet/skbuff_cq.h:20-24 | head = tail = 0, so COUNT is 0, SPACE is R - 1 and the queue is empty |
| ShadowQueue.SkBuffCq.constructor | drivers/net/ethernet/icenet/skbuff_cq.h:11-24 | a fresh array of R slots with head and tail at 0, as sk_buff_cq_init leaves them: COUNT 0, SPACE R - 1, no live entries |
| ShadowQueue.SkBuffCq.Push | drivers/net/ethernet/icenet/skbuff_cq.h:26-31 | stores at the old head, advances head modulo R, changes no other slot and not tail, whether or not there was room; with SPACE > 0 COUNT rises by 1 and the buffer joins the back of the FIFO contents |
| ShadowQueue.SkBuffCq.Pop | drivers/net/ethernet/icenet/skbuff_cq.h:33-41 | returns the entry at tail and advances tail modulo R; with COUNT > 0 it is the oldest live buffer, COUNT drops by 1 and the rest stay in order |
| ShadowQueue.SkBuffCq.TailNSegments | drivers/net/ethernet/icenet/skbuff_cq.h:43-50 | at least 1, and the segment count of the oldest live buffer when the queue is not empty |
| ShadowQueue.TailAdvanced | drivers/net/ethernet/icenet/skbuff_cq.h:38 | moving tail k <= COUNT slots removes exactly the k oldest live entries and keeps the rest in order |
| ShadowQueue.WindowUnchanged | drivers/net/ethernet/icenet/skbuff_cq.h:29 | a store into a slot outside the live window leaves the live entries unchanged |
| Regs.IntmaskBits | drivers/net/ethernet/icenet/icenet.h:16-18 | BOTH = TX \| RX, and TX and RX are distinct single bits |
| Regs.SendReqAvail | drivers/net/ethernet/icenet/icenet.h:45-48 | byte 0 of COUNTS, in [0, 255] |
| Regs.RecvReqAvail | drivers/net/ethernet/icenet/icenet.h:50-53 | byte 1 of COUNTS, in [0, 255] |
| Regs.SendCompAvail | drivers/net/ethernet/icenet/icenet.h:55-58 | byte 2 of COUNTS, in [0, 255] |
| Regs.RecvCompAvail | drivers/net/ethernet/icenet/icenet.h:60-63 | byte 3 of COUNTS, in [0, 255] |
| Regs.PackCounts | drivers/net/ethernet/icenet/icenet.h:45-63 | each getter recovers exactly its own byte of a packed word, so the four fields are independent |
| Regs.CountsRepack | drivers/net/ethernet/icenet/icenet.h:45-63 | re-packing the four decoded bytes with shifts 0, 8, 16 and 24 gives back the COUNTS word |
| Regs.Min | drivers/net/ethernet/icenet/icenet.h:82 | the smaller of two counts: at most each, and equal to one of them |
| Regs.SetBits | drivers/net/ethernet/icenet/icenet.h:65-69 | every bit of the mask is set afterwards, every other bit keeps its value |
| Regs.ClearBits | drivers/net/ethernet/icenet/icenet.h:71-75 | every bit of the mask is clear afterwards, every other bit keeps its value |
| Regs.SetClearIdempotent | drivers/net/ethernet/icenet/icenet.h:65-75 | setting or clearing the same bits twice is the same as once |
| Regs.DmaPtrAlign | drivers/net/ethernet/icenet/icenet.h:24 | 8-aligned, and unless p + 7 wraps, the least multiple of 8 that is >= p |
| Regs.DmaLenAlign | drivers/net/ethernet/icenet/icenet.h:25 | a multiple of 8; for n >= 1 the least one >= n; 0 for n = 0 |
| Descriptors.TopBits | drivers/net/ethernet/icenet/icenet.c:9 | the top 16 bits `(partial << 15) \| (len & 0xffff)` are below 2^16 |
| Descriptors.DescriptorDecodes | drivers/net/ethernet/icenet/icenet.c:9 | for a length below 2^15, bit 63 gives back the flag, bits 62-48 the length and bits 47-0 the address masked to 48 bits |
| Descriptors.UnmaskedAddress | drivers/net/ethernet/icenet/icenet.c:153 | a checksum request built without the address mask equals the masked descriptor when the address is below 2^48 |
| Descriptors.DescriptorOfFields | drivers/net/ethernet/icenet/icenet.c:31 | flag, length and address are the only information in a descriptor word |
| Descriptors.LengthOverflowSetsFlag | drivers/net/ethernet/icenet/icenet.c:9 | a length of 2^15 spills into the continuation flag, and one of 2^16 vanishes |
| Requests.FragDescriptors | drivers/net/ethernet/icenet/icenet.c:34-38 | one word per fragment |
| Requests.CksumDescriptors | drivers/net/ethernet/icenet/icenet.c:153-168 | one checksum request per segment: the head and each fragment |
| Requests.FittingFrags | drivers/net/ethernet/icenet/icenet.c:161-166 | the fragments before the first address at or beyond 2^48, which is where the request loop stops |
| RequestFields.FragDescriptorFields | drivers/net/ethernet/icenet/icenet.c:3-11 | the word for fragment i carries its length and address, and the continuation flag exactly when it is not the last |
| RequestFields.SendHeadDescriptor | drivers/net/ethernet/icenet/icenet.c:20-32 | a send writes nr_frags + 1 words; the first carries skb_headlen (or len) + NET_IP_ALIGN at data - NET_IP_ALIGN, flagged exactly when fragments follow |
| RequestFields.SendFragDescriptor | drivers/net/ethernet/icenet/icenet.c:34-38 | word k > 0 of a send describes fragment k - 1 and is flagged exactly when it is not the last word |
| RequestFields.RecvReadyAligned | drivers/net/ethernet/icenet/icenet.c:47-50 | the posted receive buffer starts 8-aligned and at most 7 bytes later, and nothing else about it changes |
| RequestFields.CksumHeadRequest | drivers/net/ethernet/icenet/icenet.c:140-153 | the head request equals checksum descriptor 0 once its start address fits in 48 bits |
| RequestFields.CksumFragRequest | drivers/net/ethernet/icenet/icenet.c:161-167 | the request for fragment i equals checksum descriptor i + 1 once its address fits in 48 bits |
| RequestFields.CksumDescriptorFields | drivers/net/ethernet/icenet/icenet.c:140-168 | when every span is below 2^15, request k carries segment k's length and address (the head span from the checksum start, then each fragment), and bit 63 is set exactly when it is not the last request |
| SkBuff.Pull | drivers/net/ethernet/icenet/icenet.c:94 | when n <= len the data start moves n bytes on while the end of the data stays where it was (modulo 2^64); fragments, head, end, stores and checksum state never change; when n > len the buffer is left as it is |
| SkBuff.TotalSegmentsSnoc | drivers/net/ethernet/icenet/icenet.c:72-77 | the segment total of a run of buffers grows by the segments of each buffer added |
| IceNet.ReclaimSend | drivers/net/ethernet/icenet/icenet.c:63-78 | never pops more than is queued, and a crash happens only after popping everything |
| IceNet.ReclaimSendSpec | drivers/net/ethernet/icenet/icenet.c:57-79 | pops a FIFO prefix whose segments total at most send_comp_avail; stops exactly when the next buffer needs more completions than are left, so no buffer is retired partly; crashes exactly when the queue runs dry with completions left |
| IceNet.FirstWithRoom | drivers/net/ethernet/icenet/icenet.c:155-157 | the first poll with room for every request, and no earlier poll has room |
| IceNet.FirstWithResponse | drivers/net/ethernet/icenet/icenet.c:171-173 | the first poll with a response ready, and no earlier poll has one |
| IceNet.WaitForRoom | drivers/net/ethernet/icenet/icenet.c:155-157 | the first busy-wait exits at the first poll with room |
| IceNet.WaitForResponse | drivers/net/ethernet/icenet/icenet.c:171-173 | the second busy-wait exits at the first poll with a response |
| IceNet.Device.constructor | drivers/net/ethernet/icenet/main.c:256-257 | both shadow queues over fresh rings of the same power-of-two size, both empty |
| IceNet.Device.SetIntmask | drivers/net/ethernet/icenet/icenet.h:65-69 | the mask register becomes SetBits of its old value |
| IceNet.Device.ClearIntmask | drivers/net/ethernet/icenet/icenet.h:71-75 | the mask register becomes ClearBits of its old value |
| IceNet.Device.SendSpace | drivers/net/ethernet/icenet/icenet.h:77-83 | at most send_req_avail and at most SPACE(send_cq), and equal to one of them |
| IceNet.Device.PostSendFrag | drivers/net/ethernet/icenet/icenet.c:3-11 | one SEND_REQ write of the fragment's descriptor, built with the continuation flag unless it is the last; the word's bit 63 reads back as that flag when the size is below 2^15 (FragDescriptorFields) |
| IceNet.Device.PostSend | drivers/net/ethernet/icenet/icenet.c:13-43 | writes exactly SendDescriptors to SEND_REQ, head first and then the fragments in order; only then pushes the buffer, once: it lands in the slot at the old head, no other slot changes, and with room it joins the back of send_cq |
| IceNet.Device.PostRecv | drivers/net/ethernet/icenet/icenet.c:45-55 | one RECV_REQ write of the aligned address, then one push of the aligned buffer: it lands in the slot at the old head, no other slot changes, and with room it joins the back of recv_cq |
| IceNet.Device.AckSendComps | drivers/net/ethernet/icenet/icenet.c:72-73 | exactly nsegs SEND_COMP reads |
| IceNet.Device.CompleteSend | drivers/net/ethernet/icenet/icenet.c:57-79 | retires and releases exactly the FIFO prefix ReclaimSend prescribes, with one SEND_COMP read per retired segment, and crashes exactly when ReclaimSend does |
| IceNet.Device.RetireOne | drivers/net/ethernet/icenet/icenet.c:67-77 | one loop pass: acknowledges the oldest buffer's segments, pops it and releases it, keeping the reclamation on track |
| IceNet.Device.CompleteRecv | drivers/net/ethernet/icenet/icenet.c:81-108 | returns min(recv_comp_avail, budget) and pops that many; each buffer handed up has the reported length added, NET_IP_ALIGN pulled and its checksum marked verified; rx_packets and rx_bytes grow by the count and the sum of lengths; when no more were reported than posted, the buffers handed up are the oldest posted ones, in order |
| IceNet.Device.ReceiveOne | drivers/net/ethernet/icenet/icenet.c:91-101 | one loop pass: reads one length, pops one buffer and hands it up |
| IceNet.Device.AllocRecv | drivers/net/ethernet/icenet/icenet.c:110-130 | returns min(n, recv_req_avail, SPACE(recv_cq)) and posts exactly that many buffers, in order, each written to RECV_REQ and pushed |
| IceNet.Device.ChecksumOffload | drivers/net/ethernet/icenet/icenet.c:132-179 | crashes exactly when an address is at or beyond 2^48; otherwise it polls until there is room for every request, writes the nr_frags + 1 requests in order (built with the continuation flag except the last; see CksumDescriptorFields for when the flag reads back), polls for the response, reads it, stores it at start + csum_offset and marks the buffer CHECKSUM_NONE |
| IceNet.Device.WriteFragRequests | drivers/net/ethernet/icenet/icenet.c:161-169 | writes the requests of the fragments in order, stopping at the BUG_ON for the first address that does not fit |
| Driver.OutgoingShape | drivers/net/ethernet/icenet/main.c:196-202 | checksum offload changes neither the length nor the fragments nor the `data` pointer nor the linear length of the buffer sent; only the stored checksum and `ip_summed` differ |
| Driver.ClearBoth | drivers/net/ethernet/icenet/main.c:155 | clearing BOTH clears the TX bit and the RX bit and nothing else |
| Driver.SendSpaceView | drivers/net/ethernet/icenet/icenet.h:77-83 | send_space is min(send_req_avail, R - 1 - queued) |
| Driver.XmitReclaim | drivers/net/ethernet/icenet/main.c:178-180 | the reclamation of start_xmit never pops more than is queued |
| Driver.SendXmit | drivers/net/ethernet/icenet/main.c:196-202 | the checksum offload when asked, then the post, then the count: crashes exactly on an out-of-range checksum address |
| Driver.MakeRoom | drivers/net/ethernet/icenet/main.c:173-184 | changes the device as Admission prescribes |
| Driver.Admit | drivers/net/ethernet/icenet/main.c:186-206 | changes the device as Dispatch prescribes |
| Driver.StartXmit | drivers/net/ethernet/icenet/main.c:164-207 | changes the transmit side as Xmit prescribes |
| Driver.CksumTraceRegs | drivers/net/ethernet/icenet/icenet.c:155-175 | a completed checksum offload touches only the checksum registers and writes at least one request |
| Driver.XmitMask | drivers/net/ethernet/icenet/main.c:173-189 | the TX bit is set when the first send_space is below the threshold or the buffer is dropped; otherwise the mask is unchanged |
| Driver.DispatchMask | drivers/net/ethernet/icenet/main.c:186-194 | the dispatch step sets the TX bit, and reports a drop, exactly when room is short |
| Driver.XmitReclaimsOnlyWhenShort | drivers/net/ethernet/icenet/main.c:178-184 | no completion is read and nothing is retired unless the first send_space is short of nsegs; otherwise the reclamation is complete_send's and the space is read again |
| Driver.XmitDrop | drivers/net/ethernet/icenet/main.c:178-194 | NETDEV_TX_BUSY exactly when the space after any reclamation is still short; then the queue is stopped, the TX bit set, tx_dropped + 1, the buffer released, nothing posted, and the only accesses are SEND_COMP reads |
| Driver.XmitPost | drivers/net/ethernet/icenet/main.c:168-206 | on success nsegs <= send_space <= SPACE(send_cq), so the push never overflows; the buffer joins the back of the queue; tx_packets + 1 and tx_bytes + len |
| Driver.XmitChecksumFirst | drivers/net/ethernet/icenet/main.c:196-200 | the accesses between the reclamation and the SEND_REQ descriptors are all checksum-register accesses, present exactly when the buffer is CHECKSUM_PARTIAL |
| Driver.XmitCrash | drivers/net/ethernet/icenet/main.c:178-197 | BUG_ON fires only when reclamation finds the queue empty with completions left, or when a buffer being sent needs a checksum and an address is out of range |
| Driver.TxInterruptMask | drivers/net/ethernet/icenet/main.c:26-33 | after reclamation the TX bit is clear exactly when space >= threshold or it was already clear; no other bit changes; the queue stays stopped exactly when it was stopped and space <= 0 |
| Driver.DropThenWake | drivers/net/ethernet/icenet/main.c:29-33 | a drop leaves the queue stopped with the TX interrupt enabled; a later TX interrupt that finds threshold > 0 slots disables it and wakes the queue |
| Driver.TxIsr | drivers/net/ethernet/icenet/main.c:15-38 | IRQ_NONE with nothing changed on another line; otherwise changes the transmit side as TxInterrupt prescribes |
| Driver.RxIsr | drivers/net/ethernet/icenet/main.c:40-54 | IRQ_NONE with nothing changed on another line; otherwise clears only the RX bit and schedules the poll |
| Driver.MaskBitsIndependent | drivers/net/ethernet/icenet/icenet.h:16-17 | setting or clearing one of TX and RX leaves the other alone |
| Driver.RxPoll | drivers/net/ethernet/icenet/main.c:56-80 | completed = min(recv_comp_avail, budget) <= budget; it refills min(completed, recv_req_avail, free slots); it crashes exactly when the refill differs from the drain; only when completed < budget does it leave polling mode and set the RX bit |
| Driver.Open | drivers/net/ethernet/icenet/main.c:133-149 | posts min(recv_req_avail, SPACE(recv_cq)) buffers, because the ring-size bound never binds; starts the queue; sets the RX bit |
| Driver.Stop | drivers/net/ethernet/icenet/main.c:151-162 | clears both interrupt bits and stops the queue |

## Left out

- Spinlocks, interrupt context and the atomicity of `atomic_fetch_or` and
  `atomic_fetch_and`. Each handler is one sequential method.
- NAPI beyond one `pollScheduled` flag. `napi_schedule_prep` is taken to succeed,
  and `napi_enable`, `napi_synchronize` and `napi_disable` are not modelled.
- `rmem.c`. It is a character device and shares no logic with the NIC.
- Probe, remove, address and interrupt parsing, MAC address setup, device-tree
  matching and netdev registration. Only the two `sk_buff_cq_init` calls of probe
  are modelled, in the `Device` constructor. The MACADDR register is read only by
  that setup code, so its offset is not modelled.
- ShadowQueue.SkBuffCq.constructor and IceNet.Device.constructor require a
  power-of-two ring size. The C code never checks this. It relies on
  CONFIG_ICENET_RING_SIZE being a power of two, which the `& (R - 1)` masks need.
- IceNet.Device.CompleteRecv: buffers are recorded in `delivered` as they are before
  `eth_type_trans`. The stack's pull of the Ethernet header and the `protocol` and
  `dev` fields are not modelled.
- Calls into the network stack. These are `eth_type_trans`, `netif_receive_skb`,
  `skb_tx_timestamp`, `dev_consume_skb_any`, `dev_kfree_skb_any` and the `netif_*`
  queue calls. Freed and consumed transmit buffers are appended to `released`,
  delivered receive buffers to `delivered`, and the queue state is a `stopped` flag.
- `netdev_alloc_skb`. Its buffers are a parameter, and it is taken to succeed, as
  the code assumes. The buffer size it is asked for, MAX_FRAME_SIZE, is not modelled.
- `virt_to_phys` and `page_to_phys`. Buffer pointers are kept as physical
  addresses, so the translation is the identity.
- The behaviour of the device behind its registers. No relation between COUNTS and
  the shadow queues is assumed.
- The two busy-waits of `icenet_checksum_offload`. Each takes a finite sequence of
  poll values, which must contain one that ends the wait. Termination of the real
  loops depends on the hardware.
- `printk` and the commented-out debug lines.
- The 64-bit `stats` counters of the net device. They are unbounded naturals, and
  their wrap-around is not modelled.
- Regs.DmaLenAlign: it is stated on unbounded integers, so overflow of the C `int`
  near INT_MAX is not modelled. The driver never uses the macro.
- StartXmit: when `BUG_ON` fires, the returned value is meaningless and is
  reported as `TxOk`.

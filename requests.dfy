/**
 * The words the driver writes to the request registers for one buffer: the
 * SEND_REQ descriptors of icenet_post_send and post_send_frag, the aligned
 * address icenet_post_recv writes to RECV_REQ, and the CKSUM_REQ requests of
 * icenet_checksum_offload, with the lemmas that decode each word back into the
 * segment it describes.
 */
module Requests {
  import opened Words
  import opened SkBuff
  import opened Regs
  import opened Descriptors

  /** The words post_send_frag writes for the fragments; only the last one is not partial. */
  function FragDescriptors(frags: seq<Frag>): (ws: seq<U64>)
    ensures |ws| == |frags|
  {
    seq(|frags|, i requires 0 <= i < |frags| => Descriptor(i != |frags| - 1, frags[i].size, frags[i].addr))
  }

  /** The length icenet_post_send gives the head: the linear part if fragments follow, else all of it. */
  function SendHeadLen(skb: Skb): U64
  {
    if |skb.frags| > 0 then HeadLen(skb) else skb.len
  }

  /** The head descriptor of icenet_post_send: NET_IP_ALIGN bytes before the data are sent too. */
  function SendHead(skb: Skb, ipAlign: U64): U64
  {
    Descriptor(|skb.frags| > 0, Add64(SendHeadLen(skb), ipAlign), Sub64(skb.data, ipAlign))
  }

  /** Everything icenet_post_send writes to SEND_REQ for one buffer, in order. */
  function SendDescriptors(skb: Skb, ipAlign: U64): seq<U64>
  {
    [SendHead(skb, ipAlign)] + FragDescriptors(skb.frags)
  }

  /** Every segment length of a send fits the 15-bit descriptor field. */
  predicate SendLengthsFit(skb: Skb, ipAlign: U64)
  {
    Add64(SendHeadLen(skb), ipAlign) < 0x8000 && forall i :: 0 <= i < |skb.frags| ==> skb.frags[i].size < 0x8000
  }

  // ----------------------------------------------------------------- receive

  /** A receive buffer as icenet_post_recv leaves it: data start reserved up to 8-byte alignment. */
  function RecvReady(skb: Skb): Skb
  {
    Reserve(skb, Sub64(DmaPtrAlign(skb.data), skb.data))
  }

  // -------------------------------------------------------- checksum offload

  /** The address a checksum request may carry: below 2^48, else BUG_ON. */
  predicate AddrFits(a: U64)
  {
    a < TWO_48
  }

  /** skb_checksum_start */
  function CksumStart(skb: Skb): U64
  {
    Add64(skb.head, skb.csumStart)
  }

  /** The head span: to the end of the linear data if fragments follow, else to skb_end_pointer. */
  function CksumHeadLen(skb: Skb): U64
  {
    Sub64(if |skb.frags| > 0 then Add64(skb.data, HeadLen(skb)) else skb.end, CksumStart(skb))
  }

  /** Every request icenet_checksum_offload writes to CKSUM_REQ, in order. */
  function CksumDescriptors(skb: Skb): (ws: seq<U64>)
    ensures |ws| == NSegments(skb)
  {
    [Descriptor(|skb.frags| > 0, CksumHeadLen(skb), CksumStart(skb))] + FragDescriptors(skb.frags)
  }

  /** The number of leading fragments whose addresses fit. */
  function FittingFrags(frags: seq<Frag>): (k: nat)
    ensures k <= |frags|
    ensures forall i :: 0 <= i < k ==> AddrFits(frags[i].addr)
    ensures k < |frags| ==> !AddrFits(frags[k].addr)
    decreases frags
  {
    if frags == [] || !AddrFits(frags[0].addr) then 0 else 1 + FittingFrags(frags[1..])
  }

  /** All addresses the checksum requests use fit in 48 bits. */
  predicate CksumAddrsFit(skb: Skb)
  {
    AddrFits(CksumStart(skb)) && forall i :: 0 <= i < |skb.frags| ==> AddrFits(skb.frags[i].addr)
  }

  /** The buffer after the checksum is stored at csum_offset past the checksum start. */
  function WithChecksum(skb: Skb, result: bv16): Skb
  {
    skb.(stores := skb.stores + [Store(Add64(CksumStart(skb), skb.csumOffset), result)], ipSummed := ChecksumNone)
  }
}

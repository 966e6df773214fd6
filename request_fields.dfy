/**
 * Decoding the request words of Requests back into the segments they describe.
 */
module RequestFields {
  import opened Words
  import opened SkBuff
  import Regs
  import opened Descriptors
  import opened Requests

  lemma FragDescriptorAt(frags: seq<Frag>, i: int)
    requires 0 <= i < |frags|
    ensures FragDescriptors(frags)[i] == Descriptor(i != |frags| - 1, frags[i].size, frags[i].addr)
  {}

  /** The word for fragment i carries its length and address, and the flag unless it is the last. */
  lemma FragDescriptorFields(frags: seq<Frag>, i: int)
    requires 0 <= i < |frags| && frags[i].size < 0x8000
    ensures IsPartial(FragDescriptors(frags)[i]) == (i != |frags| - 1)
    ensures LengthOf(FragDescriptors(frags)[i]) == frags[i].size
    ensures AddressOf(FragDescriptors(frags)[i]) == frags[i].addr % TWO_48
  {
    FragDescriptorAt(frags, i);
    DescriptorDecodes(i != |frags| - 1, frags[i].size, frags[i].addr);
  }

  /**
   * The first word sent for a buffer describes its head: the linear data with the
   * NET_IP_ALIGN bytes before it, flagged partial exactly when fragments follow.
   */
  lemma SendHeadDescriptor(skb: Skb, ipAlign: U64)
    requires SendLengthsFit(skb, ipAlign)
    ensures |SendDescriptors(skb, ipAlign)| == NSegments(skb)
    ensures IsPartial(SendDescriptors(skb, ipAlign)[0]) == (|skb.frags| > 0)
    ensures LengthOf(SendDescriptors(skb, ipAlign)[0]) == Add64(SendHeadLen(skb), ipAlign)
    ensures AddressOf(SendDescriptors(skb, ipAlign)[0]) == Sub64(skb.data, ipAlign) % TWO_48
  {
    assert SendDescriptors(skb, ipAlign)[0] == SendHead(skb, ipAlign);
    DescriptorDecodes(|skb.frags| > 0, Add64(SendHeadLen(skb), ipAlign), Sub64(skb.data, ipAlign));
  }

  /**
   * Word k > 0 sent for a buffer describes fragment k - 1, flagged partial unless it
   * is the last word.
   */
  lemma SendFragDescriptor(skb: Skb, ipAlign: U64, k: int)
    requires SendLengthsFit(skb, ipAlign) && 1 <= k < NSegments(skb)
    ensures IsPartial(SendDescriptors(skb, ipAlign)[k]) == (k < NSegments(skb) - 1)
    ensures LengthOf(SendDescriptors(skb, ipAlign)[k]) == skb.frags[k - 1].size
    ensures AddressOf(SendDescriptors(skb, ipAlign)[k]) == skb.frags[k - 1].addr % TWO_48
  {
    assert SendDescriptors(skb, ipAlign)[k] == FragDescriptors(skb.frags)[k - 1];
    FragDescriptorFields(skb.frags, k - 1);
  }

  /**
   * The receive buffer icenet_post_recv posts starts 8-aligned, no more than 7
   * bytes after where it started (unless the address wraps), and nothing else
   * about it changes.
   */
  lemma RecvReadyAligned(skb: Skb)
    ensures RecvReady(skb).data % 8 == 0
    ensures RecvReady(skb) == skb.(data := RecvReady(skb).data)
    ensures skb.data < TWO_64 - 7 ==> skb.data <= RecvReady(skb).data < skb.data + 8
  {
    AddSub(Regs.DmaPtrAlign(skb.data), skb.data);
  }

  /**
   * The checksum request for the head, built without the address mask once the
   * start address is known to fit, is the first checksum descriptor.
   */
  lemma CksumHeadRequest(skb: Skb)
    requires AddrFits(CksumStart(skb))
    ensures TopBits(|skb.frags| > 0, CksumHeadLen(skb)) * TWO_48 + CksumStart(skb) == CksumDescriptors(skb)[0]
  {
    UnmaskedAddress(|skb.frags| > 0, CksumHeadLen(skb), CksumStart(skb));
  }

  /** The unmasked request for fragment i, with its address in range, is checksum descriptor i + 1. */
  lemma CksumFragRequest(skb: Skb, i: int)
    requires 0 <= i < |skb.frags| && AddrFits(skb.frags[i].addr)
    ensures TopBits(i < |skb.frags| - 1, skb.frags[i].size) * TWO_48 + skb.frags[i].addr == CksumDescriptors(skb)[i + 1]
  {
    FragDescriptorAt(skb.frags, i);
    UnmaskedAddress(i < |skb.frags| - 1, skb.frags[i].size, skb.frags[i].addr);
  }

  /**
   * Request k of a checksum offload describes segment k: the head span from the
   * checksum start, then each fragment, flagged exactly when it is not the last,
   * as long as every span fits the 15-bit length field.
   */
  lemma CksumDescriptorFields(skb: Skb, k: int)
    requires CksumHeadLen(skb) < 0x8000 && forall i :: 0 <= i < |skb.frags| ==> skb.frags[i].size < 0x8000
    requires 0 <= k < NSegments(skb)
    ensures IsPartial(CksumDescriptors(skb)[k]) == (k < NSegments(skb) - 1)
    ensures LengthOf(CksumDescriptors(skb)[k]) == if k == 0 then CksumHeadLen(skb) else skb.frags[k - 1].size
    ensures AddressOf(CksumDescriptors(skb)[k]) == (if k == 0 then CksumStart(skb) else skb.frags[k - 1].addr) % TWO_48
  {
    if k == 0 {
      DescriptorDecodes(|skb.frags| > 0, CksumHeadLen(skb), CksumStart(skb));
    } else {
      assert CksumDescriptors(skb)[k] == FragDescriptors(skb.frags)[k - 1];
      FragDescriptorFields(skb.frags, k - 1);
    }
  }
}

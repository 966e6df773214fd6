/**
 * The network stack's packet buffer (struct sk_buff), reduced to the fields the
 * IceNet packet engine reads or writes. Pointers into the buffer are kept as the
 * physical addresses the driver obtains from them with virt_to_phys, so pointer
 * arithmetic on the buffer and arithmetic on its physical addresses coincide.
 */
module SkBuff {
  import opened Words

  /** skb->ip_summed */
  datatype Summed = ChecksumNone | ChecksumUnnecessary | ChecksumComplete | ChecksumPartial

  /** One page fragment: page_to_phys(page) + page_offset, and its size in bytes. */
  datatype Frag = Frag(addr: U64, size: U64)

  /** A 16-bit value the driver stored into buffer memory at a physical address. */
  datatype Store = Store(addr: U64, value: bv16)

  datatype Skb = Skb(
    id: nat,             // identity of the buffer (its pointer)
    head: U64,           // skb->head
    data: U64,           // skb->data
    len: U64,            // skb->len: bytes in the linear part and in all fragments
    dataLen: U64,        // skb->data_len: bytes in the fragments
    end: U64,            // skb_end_pointer(skb): end of the linear buffer space
    frags: seq<Frag>,    // skb_shinfo(skb)->frags[0 .. nr_frags)
    ipSummed: Summed,
    csumStart: U64,      // skb->csum_start, counted from skb->head
    csumOffset: U64,     // skb->csum_offset, counted from the checksum start
    stores: seq<Store>   // 16-bit stores the driver made into the buffer, oldest first
  )

  /** skb_headlen: bytes in the linear part. */
  function HeadLen(skb: Skb): U64
  {
    Sub64(skb.len, skb.dataLen)
  }

  /** Descriptors (and hardware completions) one buffer takes: the head plus one per fragment. */
  function NSegments(skb: Skb): nat
  {
    |skb.frags| + 1
  }

  /** Total segments of a run of buffers. */
  function TotalSegments(q: seq<Skb>): nat
  {
    if q == [] then 0 else NSegments(q[0]) + TotalSegments(q[1..])
  }

  /** Segments add up when a run of buffers grows at its end. */
  lemma {:induction false} TotalSegmentsSnoc(q: seq<Skb>, x: Skb)
    ensures TotalSegments(q + [x]) == TotalSegments(q) + NSegments(x)
    decreases |q|
  {
    if q != [] {
      assert (q + [x])[1..] == q[1..] + [x];
      TotalSegmentsSnoc(q[1..], x);
    }
  }

  /** skb_reserve: move the data start forward by n bytes (tail moves with it). */
  function Reserve(skb: Skb, n: U64): Skb
  {
    skb.(data := Add64(skb.data, n))
  }

  /** skb_put: extend the data by n bytes at the tail. */
  function Put(skb: Skb, n: U64): Skb
  {
    skb.(len := Add64(skb.len, n))
  }

  /**
   * skb_pull: drop n bytes from the front; refuses (leaves the buffer as is) when
   * n > len. The data still ends where it did, and nothing but the start and the
   * length moves.
   */
  function Pull(skb: Skb, n: U64): (r: Skb)
    ensures n <= skb.len ==> r.len == skb.len - n && r.data == Add64(skb.data, n)
    ensures n <= skb.len ==> Add64(r.data, r.len) == Add64(skb.data, skb.len)
    ensures r.frags == skb.frags && r.dataLen == skb.dataLen && r.head == skb.head && r.end == skb.end
    ensures r.id == skb.id && r.stores == skb.stores && r.ipSummed == skb.ipSummed
    ensures n > skb.len ==> r == skb
  {
    if n > skb.len then skb
    else
      WrapIsMod(skb.data, n);
      WrapIsMod(Add64(skb.data, n), skb.len - n);
      WrapIsMod(skb.data, skb.len);
      skb.(data := Add64(skb.data, n), len := skb.len - n)
  }
}

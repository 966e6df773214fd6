/**
 * The register-level helpers of icenet.h that are pure expressions: the register
 * offsets, the interrupt-mask bits, decoding of the packed COUNTS word, the
 * set/clear bit operations applied to the interrupt mask, and the DMA alignment
 * macros.
 */
module Regs {
  import opened Words

  // Register offsets from the device base.
  const SEND_REQ: nat := 0
  const RECV_REQ: nat := 8
  const SEND_COMP: nat := 16
  const RECV_COMP: nat := 18
  const COUNTS: nat := 20
  const INTMASK: nat := 32
  const CKSUM_COUNTS: nat := 36
  const CKSUM_RESP: nat := 38
  const CKSUM_REQ: nat := 40

  // Interrupt-mask bits.
  const INTMASK_TX: bv32 := 1
  const INTMASK_RX: bv32 := 2
  const INTMASK_BOTH: bv32 := 3

  /** BOTH is the union of TX and RX, which are two different single bits. */
  lemma IntmaskBits()
    ensures INTMASK_BOTH == INTMASK_TX | INTMASK_RX
    ensures INTMASK_TX & INTMASK_RX == 0
    ensures INTMASK_TX & (INTMASK_TX - 1) == 0 && INTMASK_RX & (INTMASK_RX - 1) == 0
    ensures INTMASK_TX != 0 && INTMASK_RX != 0
  {}

  // The COUNTS register packs four 8-bit availability counts, low byte first.

  /** send_req_avail: free slots in the send request ring. */
  function SendReqAvail(counts: bv32): (n: int)
    ensures 0 <= n < 256
  {
    (counts & 0xff) as int
  }

  /** recv_req_avail: free slots in the receive request ring. */
  function RecvReqAvail(counts: bv32): (n: int)
    ensures 0 <= n < 256
  {
    ((counts >> 8) & 0xff) as int
  }

  /** send_comp_avail: send completions ready to be read. */
  function SendCompAvail(counts: bv32): (n: int)
    ensures 0 <= n < 256
  {
    ((counts >> 16) & 0xff) as int
  }

  /** recv_comp_avail: receive completions ready to be read. */
  function RecvCompAvail(counts: bv32): (n: int)
    ensures 0 <= n < 256
  {
    ((counts >> 24) & 0xff) as int
  }

  /**
   * The COUNTS word the device would present for four given counts. Each getter
   * recovers exactly its own byte, so the four fields are independent.
   */
  function PackCounts(sendReq: bv8, recvReq: bv8, sendComp: bv8, recvComp: bv8): (w: bv32)
    ensures SendReqAvail(w) == sendReq as int && RecvReqAvail(w) == recvReq as int
    ensures SendCompAvail(w) == sendComp as int && RecvCompAvail(w) == recvComp as int
  {
    var w := (sendReq as bv32) | ((recvReq as bv32) << 8) | ((sendComp as bv32) << 16) | ((recvComp as bv32) << 24);
    assert w & 0xff == sendReq as bv32 && (w >> 8) & 0xff == recvReq as bv32;
    assert (w >> 16) & 0xff == sendComp as bv32 && (w >> 24) & 0xff == recvComp as bv32;
    w
  }

  /** Re-packing the four decoded bytes with shifts 0, 8, 16 and 24 gives back the word. */
  lemma CountsRepack(counts: bv32)
    ensures PackCounts((counts & 0xff) as bv8, ((counts >> 8) & 0xff) as bv8,
                       ((counts >> 16) & 0xff) as bv8, ((counts >> 24) & 0xff) as bv8) == counts
  {}

  /** The smaller of two counts. */
  function Min(a: int, b: int): (m: int)
    ensures m <= a && m <= b
    ensures m == a || m == b
  {
    if a < b then a else b
  }

  /**
   * The new interrupt mask after set_intmask (atomic OR): every bit of m is set,
   * every other bit keeps its value.
   */
  function SetBits(w: bv32, m: bv32): (r: bv32)
    ensures r & m == m
    ensures r & !m == w & !m
  {
    w | m
  }

  /**
   * The new interrupt mask after clear_intmask (atomic AND with ~m): every bit of m
   * is clear, every other bit keeps its value.
   */
  function ClearBits(w: bv32, m: bv32): (r: bv32)
    ensures r & m == 0
    ensures r & !m == w & !m
  {
    w & !m
  }

  /** Setting or clearing the same bits twice is the same as once. */
  lemma SetClearIdempotent(w: bv32, m: bv32)
    ensures SetBits(SetBits(w, m), m) == SetBits(w, m)
    ensures ClearBits(ClearBits(w, m), m) == ClearBits(w, m)
  {}

  /**
   * DMA_PTR_ALIGN: __ALIGN_KERNEL(p, 8) = (p + 7) & ~7 on a 64-bit address. The
   * result is 8-aligned and, unless p + 7 wraps, the least such address >= p.
   */
  function DmaPtrAlign(p: U64): (r: U64)
    ensures r % 8 == 0
    ensures p < TWO_64 - 7 ==> p <= r < p + 8
  {
    var q := Add64(p, 7);
    q - q % 8
  }

  /**
   * DMA_LEN_ALIGN: (((n - 1) >> 3) + 1) << 3 on a signed length; the arithmetic
   * right shift by 3 is floor division by 8. For n >= 1 it is the least multiple
   * of 8 that is >= n, and n == 0 gives 0 ((-1 >> 3) == -1).
   */
  function DmaLenAlign(n: int): (r: int)
    ensures r % 8 == 0
    ensures n >= 1 ==> n <= r < n + 8
    ensures n == 0 ==> r == 0
  {
    ((n - 1) / 8 + 1) * 8
  }
}

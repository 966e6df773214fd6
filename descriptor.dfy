/**
 * The 64-bit request descriptor written to SEND_REQ and CKSUM_REQ:
 * bit 63 says more segments of the same buffer follow, bits 62..48 carry the
 * length, bits 47..0 the physical address.
 *
 * Words are integers in [0, 2^64): a shift left by 48 keeps the low 16 bits of
 * the length and multiplies them by 2^48, and the three fields of the OR overlap
 * only at bit 63, where the flag meets bit 15 of the length.
 */
module Descriptors {
  import opened Words

  const TWO_48: int := 0x1_0000_0000_0000
  const TWO_63: int := 0x8000_0000_0000_0000

  /** Bit 63: another descriptor of the same buffer follows. */
  function IsPartial(w: U64): bool
  {
    w >= TWO_63
  }

  /** Bits 62..48. */
  function LengthOf(w: U64): int
  {
    (w / TWO_48) % 0x8000
  }

  /** Bits 47..0. */
  function AddressOf(w: U64): int
  {
    w % TWO_48
  }

  /** The top 16 bits: (partial << 15) | (len & 0xffff). */
  function TopBits(partial: bool, len: U64): (t: int)
    ensures 0 <= t < 0x10000
  {
    var l := len % 0x10000;
    if partial && l < 0x8000 then l + 0x8000 else l
  }

  /** (partial << 63) | (len << 48) | (addr & 0xffffffffffff) */
  function Descriptor(partial: bool, len: U64, addr: U64): U64
  {
    TopBits(partial, len) * TWO_48 + addr % TWO_48
  }

  /** A word below 2^64 splits uniquely into its top 16 bits and its low 48. */
  lemma SplitWord(t: int, a: int)
    requires 0 <= t < 0x10000 && 0 <= a < TWO_48
    ensures (t * TWO_48 + a) / TWO_48 == t && (t * TWO_48 + a) % TWO_48 == a
  {}

  /**
   * Decoding a descriptor gives back its fields: the address always (masked to 48
   * bits), flag and length when the length fits its 15 bits.
   */
  lemma DescriptorDecodes(partial: bool, len: U64, addr: U64)
    requires len < 0x8000
    ensures IsPartial(Descriptor(partial, len, addr)) == partial
    ensures LengthOf(Descriptor(partial, len, addr)) == len
    ensures AddressOf(Descriptor(partial, len, addr)) == addr % TWO_48
  {
    SplitWord(TopBits(partial, len), addr % TWO_48);
  }

  /** The checksum request omits the mask; for an address below 2^48 the mask changes nothing. */
  lemma UnmaskedAddress(partial: bool, len: U64, addr: U64)
    requires addr < TWO_48
    ensures Descriptor(partial, len, addr) == TopBits(partial, len) * TWO_48 + addr
    ensures AddressOf(Descriptor(partial, len, addr)) == addr
  {
    SplitWord(TopBits(partial, len), addr);
  }

  /** Flag, length and address are the only information in a descriptor. */
  lemma DescriptorOfFields(w: U64)
    ensures Descriptor(IsPartial(w), LengthOf(w), AddressOf(w)) == w
  {
    var t, a := w / TWO_48, w % TWO_48;
    assert w == t * TWO_48 + a;
    assert LengthOf(w) == t % 0x8000;
  }

  /** A length of 0x8000 or more spills into the continuation flag, and is cut off at 16 bits. */
  lemma LengthOverflowSetsFlag()
    ensures IsPartial(Descriptor(false, 0x8000, 0)) && LengthOf(Descriptor(false, 0x8000, 0)) == 0
    ensures Descriptor(false, 0x10000, 0) == 0
  {}
}

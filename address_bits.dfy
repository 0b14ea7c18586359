/**
 * Layout of a row address inside one bank.
 *
 * A virtual row address (VRA) and a physical row address (PRA) are
 * 64-bit words.  The low VRN_SHIFT bits are the region offset (RO), the
 * bits above them the region number (VRN or PRN).  Translation replaces
 * the region number and never touches the offset.
 */
module AddressBits {
  import opened Uint64

  /** Number of offset bits. */
  const VRN_SHIFT: nat := 6
  /** Mask selecting the region offset. */
  const RO_MASK: u64 := 0x3F
  /** Rows per region. */
  const RegionSize: nat := 64

  /** Regions in one bank. */
  const NumRegionsPerBank: u64 := 1024
  /** First address past the last region of a bank: 1024 regions of 64 rows. */
  const AddressSpace: u64 := 0x1_0000

  /** A row address split into its region number and its offset. */
  datatype RegionAddress = RegionAddress(region: u64, offset: u64)

  lemma ShiftAndMask()
    ensures Pow2(VRN_SHIFT) == RegionSize && RO_MASK == Pow2(VRN_SHIFT) - 1
  {
  }

  /** `VRN = VRA >> VRN_SHIFT` and `RO = VRA & RO_MASK`: the region number
      and offset are the unique quotient and remainder by the region size. */
  function Decompose(vra: u64): (a: RegionAddress)
    ensures a.offset < RegionSize && vra == a.region * RegionSize + a.offset
    ensures vra < AddressSpace <==> a.region < NumRegionsPerBank
  {
    ShiftAndMask();
    AndLowMask(vra, VRN_SHIFT);
    RegionAddress(ShiftRight(vra, VRN_SHIFT), BitAnd(vra, RO_MASK))
  }

  /** `(N << VRN_SHIFT) | RO`: row RO of region N.  When the offset fits in
      the offset bits and the region number survives the shift, the two
      parts occupy disjoint bits and the address is their sum. */
  function Compose(a: RegionAddress): (addr: u64)
    ensures a.offset < RegionSize && a.region * RegionSize < WORD ==>
              addr == a.region * RegionSize + a.offset
  {
    ShiftAndMask();
    Pow2Word();
    var high := ShiftLeft(a.region, VRN_SHIFT);
    OrBound(high, a.offset, 64);
    if a.offset < RegionSize && a.region * RegionSize < WORD then
      DivModUnique(a.region * RegionSize, WORD, 0, a.region * RegionSize);
      assert high == a.region * Pow2(VRN_SHIFT);
      OrDisjoint(a.region, a.offset, VRN_SHIFT);
      BitOr(high, a.offset)
    else
      BitOr(high, a.offset)
  }

  /** Splitting an address and joining the parts gives the address back. */
  lemma ComposeDecompose(vra: u64)
    ensures Compose(Decompose(vra)) == vra
  {
  }

  /** Joining an in-range region number and offset and splitting the
      result gives the parts back. */
  lemma DecomposeCompose(a: RegionAddress)
    requires a.offset < RegionSize && a.region < NumRegionsPerBank
    ensures Compose(a) < AddressSpace
    ensures Decompose(Compose(a)) == a
  {
    var b := Decompose(Compose(a));
    DivModUnique(Compose(a), RegionSize, a.region, a.offset);
    DivModUnique(Compose(a), RegionSize, b.region, b.offset);
  }

  /** The decompositions the address-decomposition test checks. */
  lemma DecompositionCases()
    ensures Decompose(0) == RegionAddress(0, 0)
    ensures Decompose(63) == RegionAddress(0, 63)
    ensures Decompose(64) == RegionAddress(1, 0)
    ensures Decompose(127) == RegionAddress(1, 63)
    ensures Decompose(4096) == RegionAddress(64, 0)
    ensures Decompose(65535) == RegionAddress(1023, 63)
  {
    DecomposeCompose(RegionAddress(0, 0));
    DecomposeCompose(RegionAddress(0, 63));
    DecomposeCompose(RegionAddress(1, 0));
    DecomposeCompose(RegionAddress(1, 63));
    DecomposeCompose(RegionAddress(64, 0));
    DecomposeCompose(RegionAddress(1023, 63));
  }
}

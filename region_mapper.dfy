/**
 * The region mapper object: the forward and inverse region tables as two
 * dictionaries that its methods fill and update in place.  Reads go
 * through the functions of RegionTables applied to `State()`.
 */
module RegionMapper {
  import opened Uint64
  import opened AddressBits
  import opened RegionTables

  class Mapper {
    var regionTable: Table
    var inverseRegionTable: Table

    function State(): Mapping
      reads this
    {
      Mapping(regionTable, inverseRegionTable)
    }

    ghost predicate Valid()
      reads this
    {
      RegionTables.Valid(State())
    }

    /** A new mapper starts with the identity mapping in every bank. */
    constructor ()
      ensures Valid() && IsIdentity(State())
    {
      regionTable := map[];
      inverseRegionTable := map[];
      new;
      InitializeRegionTable();
    }

    /** Sets every entry of both tables of every bank to the identity. */
    method InitializeRegionTable()
      requires Packed(regionTable) && Packed(inverseRegionTable)
      modifies this
      ensures Valid() && IsIdentity(State())
    {
      var bank: u64 := 0;
      while bank < NumBanks
        invariant bank <= NumBanks
        invariant Packed(regionTable) && Packed(inverseRegionTable)
        invariant IdentityBelow(regionTable, bank, 0) && IdentityBelow(inverseRegionTable, bank, 0)
      {
        var vrn: u64 := 0;
        while vrn < NumRegionsPerBank
          invariant vrn <= NumRegionsPerBank
          invariant Packed(regionTable) && Packed(inverseRegionTable)
          invariant IdentityBelow(regionTable, bank, vrn) && IdentityBelow(inverseRegionTable, bank, vrn)
        {
          var key := PackKey(bank, vrn);
          IdentityBelowStep(regionTable, bank, vrn);
          IdentityBelowStep(inverseRegionTable, bank, vrn);
          regionTable := regionTable[key := vrn];
          inverseRegionTable := inverseRegionTable[key := vrn];
          vrn := vrn + 1;
        }
        bank := bank + 1;
      }
      IdentityIsValid(State());
    }

    /** Exchanges the physical regions behind two virtual regions of one
        bank and repairs the inverse entries of the two physical regions. */
    method SwapRegions(bank: u64, vrnHot: u64, vrnCold: u64)
      requires Valid() && bank < NumBanks && vrnHot < NumRegionsPerBank && vrnCold < NumRegionsPerBank
      modifies this
      ensures Valid()
      ensures State() == Swap(old(State()), bank, vrnHot, vrnCold)
    {
      ghost var swapped := Swap(State(), bank, vrnHot, vrnCold);
      var keyHot := PackKey(bank, vrnHot);
      var keyCold := PackKey(bank, vrnCold);

      var prnHot := regionTable[keyHot];
      var prnCold := regionTable[keyCold];

      regionTable := regionTable[keyHot := prnCold];
      regionTable := regionTable[keyCold := prnHot];

      var invKeyHot := PackKey(bank, prnHot);
      var invKeyCold := PackKey(bank, prnCold);
      inverseRegionTable := inverseRegionTable[invKeyHot := vrnCold];
      inverseRegionTable := inverseRegionTable[invKeyCold := vrnHot];
      assert regionTable == swapped.forward && inverseRegionTable == swapped.inverse;
    }
  }

  /** The identity-mapping test: on a new mapper every listed VRA of the
      bank translates to itself. */
  method IdentityMappingScenario(bank: u64, vras: seq<u64>) returns (pras: seq<u64>)
    requires bank < NumBanks
    requires forall i :: 0 <= i < |vras| ==> vras[i] < AddressSpace
    ensures pras == vras
  {
    var mapper := new Mapper();
    var state := mapper.State();
    pras := [];
    var i := 0;
    while i < |vras|
      invariant i <= |vras|
      invariant pras == vras[..i]
    {
      IdentityTranslate(state, bank, vras[i]);
      pras := pras + [Translate(state, bank, vras[i])];
      i := i + 1;
    }
  }

  /** The region-swapping test: on a new mapper row 0 of VRN 10 and of
      VRN 20 translates to itself; after swapping VRN 10 and 20 of bank 0,
      rows 0 and 31 of each region land in the other's physical region. */
  method RegionSwappingScenario() returns (pra10Before: u64, pra20Before: u64,
                                            pra10Row0: u64, pra10Row31: u64, pra20Row0: u64, pra20Row31: u64)
    ensures pra10Before == 10 * RegionSize && pra20Before == 20 * RegionSize
    ensures pra10Row0 == 20 * RegionSize && pra10Row31 == 20 * RegionSize + 31
    ensures pra20Row0 == 10 * RegionSize && pra20Row31 == 10 * RegionSize + 31
  {
    var mapper := new Mapper();
    var before := mapper.State();
    IdentityTranslate(before, 0, Compose(RegionAddress(10, 0)));
    IdentityTranslate(before, 0, Compose(RegionAddress(20, 0)));
    pra10Before := Translate(before, 0, Compose(RegionAddress(10, 0)));
    pra20Before := Translate(before, 0, Compose(RegionAddress(20, 0)));
    mapper.SwapRegions(0, 10, 20);
    SwapTranslate(before, 0, 10, 20, 0);
    SwapTranslate(before, 0, 10, 20, 31);
    pra10Row0 := Translate(mapper.State(), 0, Compose(RegionAddress(10, 0)));
    pra10Row31 := Translate(mapper.State(), 0, Compose(RegionAddress(10, 31)));
    pra20Row0 := Translate(mapper.State(), 0, Compose(RegionAddress(20, 0)));
    pra20Row31 := Translate(mapper.State(), 0, Compose(RegionAddress(20, 31)));
  }

  /** The inverse-mapping test: on a new mapper every listed PRN of bank 0
      belongs to the VRN of the same number; after swapping VRN 10 and 20,
      PRN 10 belongs to VRN 20 and PRN 20 to VRN 10. */
  method InverseMappingScenario(prns: seq<u64>) returns (before: seq<u64>, vrnOf10: u64, vrnOf20: u64)
    requires forall i :: 0 <= i < |prns| ==> prns[i] < NumRegionsPerBank
    ensures before == prns
    ensures vrnOf10 == 20 && vrnOf20 == 10
  {
    var mapper := new Mapper();
    var state := mapper.State();
    before := [];
    var i := 0;
    while i < |prns|
      invariant i <= |prns|
      invariant before == prns[..i]
      invariant mapper.State() == state
    {
      IdentityInverse(state, 0, prns[i]);
      before := before + [GetVRNFromPRN(state, 0, prns[i])];
      i := i + 1;
    }
    mapper.SwapRegions(0, 10, 20);
    vrnOf10 := GetVRNFromPRN(mapper.State(), 0, 10);
    vrnOf20 := GetVRNFromPRN(mapper.State(), 0, 20);
  }

  /** The multi-bank isolation test: a swap in bank 0 leaves bank 1's
      identity mapping of VRN 10 in place. */
  method MultiBankIsolationScenario() returns (praBank0: u64, praBank1: u64)
    ensures praBank0 == 20 * RegionSize && praBank1 == 10 * RegionSize
  {
    var mapper := new Mapper();
    ghost var before := mapper.State();
    mapper.SwapRegions(0, 10, 20);
    SwapTranslate(before, 0, 10, 20, 0);
    SwapIsolation(before, 0, 10, 20, 1, Compose(RegionAddress(10, 0)), 0);
    IdentityTranslate(before, 1, Compose(RegionAddress(10, 0)));
    praBank0 := Translate(mapper.State(), 0, Compose(RegionAddress(10, 0)));
    praBank1 := Translate(mapper.State(), 1, Compose(RegionAddress(10, 0)));
  }
}

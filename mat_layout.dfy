/**
 * Fast and slow physical regions.
 *
 * Physical regions are grouped into mats of `regionsPerMat` consecutive
 * PRNs.  The first `fastRegionsPerMat` slots of every mat sit next to the
 * decoders and are fast; the remaining slots are slow.  The
 * classification depends on the PRN and the two geometry constants only.
 */
module MatLayout {
  import opened Uint64

  /** The geometry the fast-region test uses. */
  const NumRegionsPerMat: u64 := 16
  const FastRegionsPerMat: u64 := 4

  /** `PRN % numRegionsPerMat`: the slot of a physical region in its mat. */
  function RegionInMat(prn: u64, regionsPerMat: u64): (slot: u64)
    requires regionsPerMat > 0
    ensures slot < regionsPerMat
  {
    prn % regionsPerMat
  }

  /** `regionInMat < fastRegionsPerMat`. */
  predicate IsFast(prn: u64, regionsPerMat: u64, fastRegionsPerMat: u64)
    requires regionsPerMat > 0
  {
    RegionInMat(prn, regionsPerMat) < fastRegionsPerMat
  }

  /** Inside mat number `mat`, a region is fast exactly when it is one of
      the first `fastRegionsPerMat` regions of that mat. */
  lemma FastSlotsLeadEachMat(prn: u64, mat: nat, regionsPerMat: u64, fastRegionsPerMat: u64)
    requires regionsPerMat > 0
    requires mat * regionsPerMat <= prn < mat * regionsPerMat + regionsPerMat
    ensures IsFast(prn, regionsPerMat, fastRegionsPerMat) <==> prn < mat * regionsPerMat + fastRegionsPerMat
  {
    DivModUnique(prn, regionsPerMat, mat, prn - mat * regionsPerMat);
  }

  /** Moving one whole mat up keeps the classification. */
  lemma FastRepeatsEveryMat(prn: u64, regionsPerMat: u64, fastRegionsPerMat: u64)
    requires regionsPerMat > 0 && prn + regionsPerMat < WORD
    ensures IsFast(prn + regionsPerMat, regionsPerMat, fastRegionsPerMat)
              == IsFast(prn, regionsPerMat, fastRegionsPerMat)
  {
    var mat := prn / regionsPerMat;
    DivModUnique(prn + regionsPerMat, regionsPerMat, mat + 1, prn % regionsPerMat);
  }

  /** The fast-region test: with 16 regions per mat and 4 fast ones, PRNs
      0-3, 16-19 and 32-35 are fast and 4-15, 20-31 and 36-47 are slow. */
  lemma FastRegionDetection(prn: u64)
    requires prn < 256
    ensures prn < 4 || 16 <= prn < 20 || 32 <= prn < 36 ==>
              IsFast(prn, NumRegionsPerMat, FastRegionsPerMat)
    ensures 4 <= prn < 16 || 20 <= prn < 32 || 36 <= prn < 48 ==>
              !IsFast(prn, NumRegionsPerMat, FastRegionsPerMat)
  {
    FastSlotsLeadEachMat(prn, prn / 16, NumRegionsPerMat, FastRegionsPerMat);
  }
}

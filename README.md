# ReRAM region mapper

A Dafny model of the region mapper of the ReRAM hot/cold migration
simulator, as `TestRegionMapper` in `tests/test_address_translation.cpp`
implements it.

A bank's row address space is cut into 1024 regions of 64 rows. The mapper
keeps two dictionaries keyed by `(bank << 10) | n` for 8 banks:

- the region table maps a virtual region number (VRN) to a physical one (PRN);
- the inverse region table maps a PRN back to its VRN.

Initialisation fills both tables with the identity. A translation works in
three steps: it splits a virtual row address (VRA) into VRN and region
offset with `>> 6` and `& 0x3F`, replaces the VRN through the region table,
and joins the result with `(PRN << 6) | RO`. A swap exchanges the PRNs of two
VRNs of one bank and repoints the two inverse entries. Physical regions form
mats of 16. The first 4 slots of each mat are fast: `PRN % 16 < 4`.

Modules:

- `Uint64`: `uint64_t` as the integers in [0, 2^64). `<<` drops the bits
  above bit 63 and `>>` is a logical shift. `&` and `|` are defined bit by
  bit. Lemmas tie the bit operations to arithmetic: or-ing disjoint bit
  ranges is addition, and masking with k one-bits is the remainder mod 2^k.
- `AddressBits`: `VRN_SHIFT`, `RO_MASK`, the split of a row address
  (`Decompose`) and the join (`Compose`), with both round trips.
- `RegionTables`: the two tables as a value (`Mapping`). It holds:
  - `Valid`, which says every key of all 8 banks is present and the two
    tables are inverse per bank;
  - `Translate`, `GetVRNFromPRN` and `Swap` as functions of a `Mapping`;
  - the properties the tests check, proved for every input rather than for
    the sample values.
- `RegionMapper`: the `Mapper` class. Its two map fields are updated in
  place by the loop-based `InitializeRegionTable` and by `SwapRegions`.
  `SwapRegions` is proved to leave exactly the state `Swap` describes. The
  test scenarios are methods whose postconditions are the values the tests
  assert.
- `MatLayout`: the fast/slow classification of physical regions.

The code checks no ranges. A bank runs from 0 to 7 (`numBanks = 8`, line
26 of the test), and 65535 is the largest VRA (line 124). A checked mapper
would reject a bank of 8 or more, a VRA of 65536 or more, and a PRN of 1024
or more. The model handles this as follows:

- The range-checked operations (`Translate`, `GetVRNFromPRN`, `Swap`) state
  these bounds as preconditions.
- `CheckedTranslate` and `CheckedGetVRNFromPRN` return no result outside
  them.
- `TranslateAsWritten` models what the unchecked code does instead (see
  Findings).
- The code has no special case for swapping a region with itself. The model
  proves that such a swap is a no-op.

## Model

| member | source | states |
|---|---|---|
| Uint64.OrDisjoint | tests/test_address_translation.cpp:54 | `(a << k) \| b` with b below 2^k sets disjoint bits, so it equals a * 2^k + b |
| Uint64.OrBound | tests/test_address_translation.cpp:50 | or-ing two values below 2^k stays below 2^k, so `\|` of two words is a word |
| Uint64.AndLowMask | tests/test_address_translation.cpp:47 | `x & (2^k - 1)` is x mod 2^k |
| AddressBits.ShiftAndMask | tests/test_address_translation.cpp:20-21 | 2^VRN_SHIFT is the region size 64, and RO_MASK is 2^VRN_SHIFT - 1 |
| AddressBits.Decompose | tests/test_address_translation.cpp:46-47 | VRN and RO are the unique quotient and remainder of the VRA by 64 (RO < 64, VRA = VRN * 64 + RO); VRN < 1024 exactly when VRA < 65536 |
| AddressBits.Compose | tests/test_address_translation.cpp:54 | when RO < 64 and PRN * 64 does not overflow, `(PRN << 6) \| RO` is PRN * 64 + RO |
| AddressBits.ComposeDecompose | tests/test_address_translation.cpp:46-54 | splitting any address and joining the parts gives the address back |
| AddressBits.DecomposeCompose | tests/test_address_translation.cpp:46-54 | joining an in-range region number and offset gives an address below 65536 that splits into the same parts |
| AddressBits.DecompositionCases | tests/test_address_translation.cpp:83-132 | VRA 0, 63, 64, 127, 4096 and 65535 split into (0,0), (0,63), (1,0), (1,63), (64,0) and (1023,63) |
| RegionTables.KeyIsPacked | tests/test_address_translation.cpp:50 | for bank < 8 and n < 1024, `(bank << 10) \| n` is bank * 1024 + n |
| RegionTables.PackedKeyValue | tests/test_address_translation.cpp:50 | while bank * 1024 fits in a word, `(bank << 10) \| n` of a ten-bit n is bank * 1024 + n |
| RegionTables.PackKey | tests/test_address_translation.cpp:60-61 | the key statement of the mapper's methods computes the in-range key |
| RegionTables.KeyInjective | tests/test_address_translation.cpp:60-61 | two in-range (bank, region) pairs share a key exactly when they are the same pair, so the banks' entries are disjoint |
| RegionTables.KeyOf | tests/test_address_translation.cpp:34-42 | every key below 8192 is the key of the pair (key / 1024, key % 1024), whose bank is below 8 |
| RegionTables.KeyAliasesOutOfRange | tests/test_address_translation.cpp:50 | without the range check, region 1034 of bank 0 gets the key of region 10 of bank 1 |
| RegionTables.IdentityBelowStep | tests/test_address_translation.cpp:37-39 | writing the identity entry of (bank, VRN) extends the bank-major prefix of identity entries by one |
| RegionTables.IdentityIsValid | tests/test_address_translation.cpp:34-42 | tables holding only in-range entries, with the identity for every bank and region, are a consistent pair |
| RegionTables.Lookup | tests/test_address_translation.cpp:50-51 | the PRN behind a VRN is a region number whose inverse entry is that VRN |
| RegionTables.GetVRNFromPRN | tests/test_address_translation.cpp:77-80 | the VRN behind a PRN is a region number whose forward entry is that PRN |
| RegionTables.Translate | tests/test_address_translation.cpp:44-57 | the PRA is below 65536, keeps the VRA's offset, and its region is the forward entry of the VRA's region; the inverse lookup of that region gives the VRA's own region back |
| RegionTables.BijectionIff | tests/test_address_translation.cpp:77-80 | in a consistent pair, the forward entry of v is p exactly when the inverse entry of p is v |
| RegionTables.Swap | tests/test_address_translation.cpp:59-75 | after a swap the tables are consistent again; hot gets cold's PRN and cold gets hot's; the two displaced PRNs point back to cold and hot; every other forward entry of every bank is unchanged |
| RegionTables.SwapKeepsBijection | tests/test_address_translation.cpp:59-75 | the four writes of a swap keep both tables covered and mutually inverse, and touch no other forward entry |
| RegionTables.SwapForwardThenInverse | tests/test_address_translation.cpp:66-74 | after the writes of a swap, every forward entry leads back to its VRN through the inverse table |
| RegionTables.SwapInverseThenForward | tests/test_address_translation.cpp:66-74 | after the writes of a swap, every inverse entry leads back to its PRN through the forward table |
| RegionTables.ForwardDeterminesMapping | tests/test_address_translation.cpp:70-74 | two consistent pairs of tables with the same forward entries are equal, so the inverse table is determined by the forward one |
| RegionTables.IdentityTranslate | tests/test_address_translation.cpp:134-149 | after initialisation every in-range VRA of every bank translates to itself |
| RegionTables.IdentityInverse | tests/test_address_translation.cpp:206-211 | after initialisation every PRN of every bank belongs to the VRN of the same number |
| RegionTables.SwapTranslate | tests/test_address_translation.cpp:171-190 | after swapping hot and cold, row ro of hot lands on row ro of cold's former PRN, and the other way round |
| RegionTables.SwapIsolation | tests/test_address_translation.cpp:230-253 | a swap in one bank changes no translation and no inverse lookup in any other bank |
| RegionTables.SwapSelf | tests/test_address_translation.cpp:59-75 | swapping a region with itself leaves both tables unchanged |
| RegionTables.SwapInvolution | tests/test_address_translation.cpp:59-75 | swapping the same pair twice restores both tables |
| RegionTables.ApplySwaps | tests/test_address_translation.cpp:59-75 | any sequence of in-range swaps leaves a consistent pair of tables, and a bank that no swap names keeps every entry |
| RegionTables.TranslateAsWrittenInRange | tests/test_address_translation.cpp:44-57 | for an in-range bank and VRA, the unchecked translation is Translate |
| RegionTables.OutOfRangeVraReadsNextBank | tests/test_address_translation.cpp:46-51 | the unchecked translation of VRA 66176 in bank 0 is the translation of VRA 640 in bank 1 |
| RegionTables.MissingBankReadsRegionZero | tests/test_address_translation.cpp:50-54 | for bank 8, which has no entries, the unchecked translation of any in-range VRA is its offset, which is a row of PRN 0 |
| RegionTables.CheckedTranslate | tests/test_address_translation.cpp:44-57 | returns a result exactly when bank < 8 and VRA < 65536; the result keeps the offset and maps back to the VRA's region |
| RegionTables.CheckedGetVRNFromPRN | tests/test_address_translation.cpp:77-80 | returns a result exactly when bank < 8 and PRN < 1024; the result is a region number whose forward entry is the PRN |
| RegionMapper.Mapper.constructor | tests/test_address_translation.cpp:30-32 | a new mapper holds a consistent identity mapping for every bank |
| RegionMapper.Mapper.InitializeRegionTable | tests/test_address_translation.cpp:34-42 | the nested loops leave both tables consistent and holding the identity for every bank and region |
| RegionMapper.Mapper.SwapRegions | tests/test_address_translation.cpp:59-75 | the in-place updates leave exactly the tables `Swap` describes, which are again consistent |
| RegionMapper.IdentityMappingScenario | tests/test_address_translation.cpp:134-149 | on a new mapper, every in-range VRA in the list translates to itself |
| RegionMapper.RegionSwappingScenario | tests/test_address_translation.cpp:151-198 | before the swap, row 0 of VRN 10 and of VRN 20 translates to itself; after swapping VRN 10 and 20 of bank 0, rows 0 and 31 of VRN 10 land in PRN 20 and those of VRN 20 land in PRN 10 |
| RegionMapper.InverseMappingScenario | tests/test_address_translation.cpp:200-228 | before the swap, each listed PRN belongs to the VRN of the same number; after swapping VRN 10 and 20, PRN 10 belongs to VRN 20 and PRN 20 to VRN 10 |
| RegionMapper.MultiBankIsolationScenario | tests/test_address_translation.cpp:230-253 | after a swap in bank 0, VRA 640 goes to PRN 20 in bank 0 and stays in PRN 10 in bank 1 |
| MatLayout.RegionInMat | tests/test_address_translation.cpp:263 | the slot of a PRN in its mat is below the mat size |
| MatLayout.FastSlotsLeadEachMat | tests/test_address_translation.cpp:263-264 | inside mat number k, a PRN is fast exactly when it is among the first fastRegionsPerMat PRNs of that mat |
| MatLayout.FastRepeatsEveryMat | tests/test_address_translation.cpp:263-264 | moving a PRN up by one whole mat keeps its classification |
| MatLayout.FastRegionDetection | tests/test_address_translation.cpp:255-275 | with 16 regions per mat and 4 fast ones, PRNs 0-3, 16-19 and 32-35 are fast, and 4-15, 20-31 and 36-47 are slow |

## Left out

- tests/test_migration_algorithm.py is not part of this model. It parses statistics files and computes with floating point.
- tests/nvmain_test_config.py is not part of this model. It wires up the simulator configuration.
- Statistics collection, migration scheduling, latency values, a configurable region size and diagnostics are not part of this model. The modelled file contains none of them.
- Console output, the `assert` calls and `main` are left out. The scenario methods state the asserted values as postconditions.
- RegionTables.Translate: requires bank < 8 and VRA < 65536. The unchecked behaviour outside that range is `TranslateAsWritten`, and the rejecting one is `CheckedTranslate`.
- RegionTables.GetVRNFromPRN: requires bank < 8 and PRN < 1024. The rejecting version is `CheckedGetVRNFromPRN`. The unchecked lookup outside the range is not modelled.
- RegionMapper.Mapper.SwapRegions: requires an in-range bank and VRNs. Out of range, the code writes under aliased keys or adds fresh keys, and the model does not follow those writes.
- RegionTables.TranslateAsWritten: gives the value an absent key reads as (PRN 0). It does not model that subscripting the dictionary also inserts that key.
- RegionMapper.Mapper.InitializeRegionTable: requires every entry already present to be an in-range key holding a region number. The class's own tables always meet this.
- Concurrency and atomicity of a batch of swaps are left out. The mapper is single-threaded.

## Findings

| source | as written | input that shows it | evidently intended | confidence | as-written member | corrected member |
|---|---|---|---|---|---|---|
| tests/test_address_translation.cpp:46-51 | the key `(bank << 10) \| VRN` is formed with no check that VRN < 1024 | bank 0, VRA 66176 (VRN 1034) reads the entry of bank 1, VRN 10 | a VRA past the bank's 65536 rows is rejected as out of range | not executed | RegionTables.OutOfRangeVraReadsNextBank | RegionTables.CheckedTranslate |
| tests/test_address_translation.cpp:50-51 | `regionTable[key]` on an absent key yields PRN 0 | bank 8, VRA 5: translates to PRA 5, a row of bank 8's nonexistent PRN 0 | a bank number of 8 or more is rejected as out of range | not executed | RegionTables.MissingBankReadsRegionZero | RegionTables.CheckedTranslate |

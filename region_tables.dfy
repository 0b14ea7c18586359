/**
 * The region tables of the ReRAM region mapper, as values.
 *
 * The mapper keeps two dictionaries keyed by the packed key
 * `(bank << 10) | n`: the region table (VRN to PRN) and the inverse
 * region table (PRN to VRN).  This module states what a consistent pair
 * of tables is, and gives the read-only queries (Translate,
 * GetVRNFromPRN) and the pairwise swap as functions of the tables.
 */
module RegionTables {
  import opened Uint64
  import opened AddressBits

  const NumBanks: u64 := 8
  /** The packed key keeps the region number in its low ten bits. */
  const BANK_SHIFT: nat := 10
  /** Number of keys in a full table: one per bank and region. */
  const TableSize: u64 := 0x2000

  datatype Option<T> = None | Some(value: T)

  /** A dictionary from packed keys to region numbers. */
  type Table = map<u64, u64>

  /** The forward (VRN to PRN) and inverse (PRN to VRN) tables of all banks. */
  datatype Mapping = Mapping(forward: Table, inverse: Table)

  /** `(bank << 10) | n`, the key under which the mapper files entry `n`
      of `bank`, exactly as the 64-bit expression computes it. */
  function PackedKey(bank: u64, n: u64): u64
  {
    Pow2Word();
    var high := ShiftLeft(bank, BANK_SHIFT);
    OrBound(high, n, 64);
    BitOr(high, n)
  }

  /** The key of an in-range bank and region number: the bank above the
      low ten bits, the region number in them. */
  function Key(bank: u64, n: u64): (k: u64)
    requires bank < NumBanks && n < NumRegionsPerBank
    ensures k < TableSize
  {
    bank * NumRegionsPerBank + n
  }

  /** For in-range arguments the packed expression and Key agree: the
      shifted bank and the region number occupy disjoint bits. */
  lemma KeyIsPacked(bank: u64, n: u64)
    requires bank < NumBanks && n < NumRegionsPerBank
    ensures PackedKey(bank, n) == Key(bank, n)
  {
    PackedKeyValue(bank, n);
  }

  /** While the bank survives the shift, `(bank << 10) | n` of a ten-bit n
      is bank * 1024 + n. */
  lemma PackedKeyValue(bank: u64, n: u64)
    requires n < NumRegionsPerBank && bank * NumRegionsPerBank < WORD
    ensures PackedKey(bank, n) == bank * NumRegionsPerBank + n
  {
    Pow2Word();
    assert Pow2(BANK_SHIFT) == NumRegionsPerBank;
    DivModUnique(bank * NumRegionsPerBank, WORD, 0, bank * NumRegionsPerBank);
    OrDisjoint(bank, n, BANK_SHIFT);
  }

  /** The statement `key = (bank << 10) | n` of the mapper's methods, for an
      in-range pair. */
  method PackKey(bank: u64, n: u64) returns (key: u64)
    requires bank < NumBanks && n < NumRegionsPerBank
    ensures key == Key(bank, n)
  {
    key := PackedKey(bank, n);
    KeyIsPacked(bank, n);
  }

  /** Different in-range (bank, region) pairs never share a key, so the
      banks' entries of one dictionary are disjoint. */
  lemma KeyInjective(b1: u64, n1: u64, b2: u64, n2: u64)
    requires b1 < NumBanks && n1 < NumRegionsPerBank
    requires b2 < NumBanks && n2 < NumRegionsPerBank
    ensures Key(b1, n1) == Key(b2, n2) <==> b1 == b2 && n1 == n2
  {
    if Key(b1, n1) == Key(b2, n2) {
      DivModUnique(Key(b1, n1), NumRegionsPerBank, b1, n1);
      DivModUnique(Key(b2, n2), NumRegionsPerBank, b2, n2);
    }
  }

  /** Every key below TableSize is the key of exactly one in-range pair. */
  lemma KeyOf(k: u64)
    requires k < TableSize
    ensures k / NumRegionsPerBank < NumBanks
    ensures Key(k / NumRegionsPerBank, k % NumRegionsPerBank) == k
  {
  }

  /** Without the region bound the packing aliases across banks: region
      1034 of bank 0 has the key of region 10 of bank 1. */
  lemma KeyAliasesOutOfRange()
    ensures PackedKey(0, 1034) == PackedKey(1, 10) == Key(1, 10)
  {
    assert ShiftLeft(0, BANK_SHIFT) == 0;
    KeyIsPacked(1, 10);
  }

  /** The dictionary holds exactly the keys of all in-range pairs, and
      every value is an in-range region number. */
  ghost predicate Covers(t: Table)
  {
    && (forall k: u64 :: k in t <==> k < TableSize)
    && (forall k: u64 :: k in t ==> t[k] < NumRegionsPerBank)
  }

  /** In every bank, forward and inverse are mutually inverse permutations
      of the region numbers `[0, 1024)`. */
  ghost predicate Valid(m: Mapping)
  {
    && Covers(m.forward)
    && Covers(m.inverse)
    && (forall b: u64, v: u64 {:trigger m.forward[Key(b, v)]} :: b < NumBanks && v < NumRegionsPerBank ==>
          m.inverse[Key(b, m.forward[Key(b, v)])] == v)
    && (forall b: u64, p: u64 {:trigger m.inverse[Key(b, p)]} :: b < NumBanks && p < NumRegionsPerBank ==>
          m.forward[Key(b, m.inverse[Key(b, p)])] == p)
  }

  /** Every bank's tables are the identity. */
  ghost predicate IsIdentity(m: Mapping)
  {
    forall b: u64, n: u64 :: b < NumBanks && n < NumRegionsPerBank ==>
      Key(b, n) in m.forward && m.forward[Key(b, n)] == n &&
      Key(b, n) in m.inverse && m.inverse[Key(b, n)] == n
  }

  /** Every key is an in-range packed key and every value a region number. */
  ghost predicate Packed(t: Table)
  {
    forall k: u64 :: k in t ==> k < TableSize && t[k] < NumRegionsPerBank
  }

  /** Every (b, n) before (bank, vrn) in bank-major order has its identity
      entry in t. */
  ghost predicate IdentityBelow(t: Table, bank: u64, vrn: u64)
  {
    forall b: u64, n: u64 :: b < NumBanks && n < NumRegionsPerBank && (b < bank || (b == bank && n < vrn)) ==>
      Key(b, n) in t && t[Key(b, n)] == n
  }

  /** Writing the identity entry of (bank, vrn) extends the filled prefix by one. */
  lemma IdentityBelowStep(t: Table, bank: u64, vrn: u64)
    requires bank < NumBanks && vrn < NumRegionsPerBank && IdentityBelow(t, bank, vrn)
    ensures IdentityBelow(t[Key(bank, vrn) := vrn], bank, vrn + 1)
  {
  }

  /** Tables holding nothing but the identity entries of every bank are a
      consistent mapping. */
  lemma IdentityIsValid(m: Mapping)
    requires Packed(m.forward) && Packed(m.inverse) && IsIdentity(m)
    ensures Valid(m)
  {
    forall k: u64 | k < TableSize
      ensures k in m.forward && k in m.inverse
    {
      KeyOf(k);
    }
  }

  /** The physical region backing virtual region `vrn` of `bank`. */
  function Lookup(m: Mapping, bank: u64, vrn: u64): (prn: u64)
    requires Valid(m) && bank < NumBanks && vrn < NumRegionsPerBank
    ensures prn < NumRegionsPerBank
    ensures m.inverse[Key(bank, prn)] == vrn
  {
    m.forward[Key(bank, vrn)]
  }

  /** The virtual region currently backed by physical region `prn`. */
  function GetVRNFromPRN(m: Mapping, bank: u64, prn: u64): (vrn: u64)
    requires Valid(m) && bank < NumBanks && prn < NumRegionsPerBank
    ensures vrn < NumRegionsPerBank
    ensures Lookup(m, bank, vrn) == prn
  {
    m.inverse[Key(bank, prn)]
  }

  /** Splits VRA, replaces its region number through the forward table and
      joins the result with the untouched offset. */
  function Translate(m: Mapping, bank: u64, vra: u64): (pra: u64)
    requires Valid(m) && bank < NumBanks && vra < AddressSpace
    ensures pra < AddressSpace
    ensures Decompose(pra).offset == Decompose(vra).offset
    ensures Decompose(pra).region == Lookup(m, bank, Decompose(vra).region)
    ensures GetVRNFromPRN(m, bank, Decompose(pra).region) == Decompose(vra).region
  {
    var a := Decompose(vra);
    var prn := m.forward[Key(bank, a.region)];
    var pra := Compose(RegionAddress(prn, a.offset));
    DecomposeCompose(RegionAddress(prn, a.offset));
    pra
  }

  /** Exchanges the physical regions behind `hot` and `cold` in `bank`,
      then points the two displaced physical regions back at their new
      owners.  The result is again a pair of mutually inverse tables. */
  function Swap(m: Mapping, bank: u64, hot: u64, cold: u64): (r: Mapping)
    requires Valid(m) && bank < NumBanks && hot < NumRegionsPerBank && cold < NumRegionsPerBank
    ensures Valid(r)
    ensures Lookup(r, bank, hot) == Lookup(m, bank, cold)
    ensures Lookup(r, bank, cold) == Lookup(m, bank, hot)
    ensures GetVRNFromPRN(r, bank, Lookup(m, bank, hot)) == cold
    ensures GetVRNFromPRN(r, bank, Lookup(m, bank, cold)) == hot
    ensures forall b: u64, v: u64 :: b < NumBanks && v < NumRegionsPerBank && (b != bank || (v != hot && v != cold)) ==>
              Lookup(r, b, v) == Lookup(m, b, v)
  {
    var keyHot, keyCold := Key(bank, hot), Key(bank, cold);
    var prnHot, prnCold := m.forward[keyHot], m.forward[keyCold];
    var r := Mapping(m.forward[keyHot := prnCold][keyCold := prnHot],
                     m.inverse[Key(bank, prnHot) := cold][Key(bank, prnCold) := hot]);
    SwapKeepsBijection(m, bank, hot, cold, r);
    r
  }

  /** The four writes of a swap turn a consistent pair of tables into a
      consistent pair, and touch no forward entry but the two swapped. */
  lemma SwapKeepsBijection(m: Mapping, bank: u64, hot: u64, cold: u64, r: Mapping)
    requires Valid(m) && bank < NumBanks && hot < NumRegionsPerBank && cold < NumRegionsPerBank
    requires r.forward == m.forward[Key(bank, hot) := m.forward[Key(bank, cold)]][Key(bank, cold) := m.forward[Key(bank, hot)]]
    requires r.inverse == m.inverse[Key(bank, m.forward[Key(bank, hot)]) := cold][Key(bank, m.forward[Key(bank, cold)]) := hot]
    ensures Valid(r)
    ensures forall b: u64, v: u64 {:trigger Key(b, v)} :: b < NumBanks && v < NumRegionsPerBank && (b != bank || (v != hot && v != cold)) ==>
              r.forward[Key(b, v)] == m.forward[Key(b, v)]
  {
    SwapForwardThenInverse(m, bank, hot, cold, r);
    SwapInverseThenForward(m, bank, hot, cold, r);
  }

  /** After a swap, every forward entry leads back to its VRN through the
      inverse table. */
  lemma SwapForwardThenInverse(m: Mapping, bank: u64, hot: u64, cold: u64, r: Mapping)
    requires Valid(m) && bank < NumBanks && hot < NumRegionsPerBank && cold < NumRegionsPerBank
    requires r.forward == m.forward[Key(bank, hot) := m.forward[Key(bank, cold)]][Key(bank, cold) := m.forward[Key(bank, hot)]]
    requires r.inverse == m.inverse[Key(bank, m.forward[Key(bank, hot)]) := cold][Key(bank, m.forward[Key(bank, cold)]) := hot]
    ensures Covers(r.forward) && Covers(r.inverse)
    ensures forall b: u64, v: u64 :: b < NumBanks && v < NumRegionsPerBank ==>
              r.inverse[Key(b, r.forward[Key(b, v)])] == v
  {
    var prnHot, prnCold := m.forward[Key(bank, hot)], m.forward[Key(bank, cold)];
    assert m.inverse[Key(bank, prnHot)] == hot && m.inverse[Key(bank, prnCold)] == cold;
    forall b: u64, v: u64 | b < NumBanks && v < NumRegionsPerBank
      ensures r.inverse[Key(b, r.forward[Key(b, v)])] == v
    {
      var p := m.forward[Key(b, v)];
      assert m.inverse[Key(b, p)] == v;
      if !(b == bank && (v == hot || v == cold)) {
        assert r.forward[Key(b, v)] == p;
        assert b == bank ==> p != prnHot && p != prnCold;
      }
    }
  }

  /** After a swap, every inverse entry leads back to its PRN through the
      forward table. */
  lemma SwapInverseThenForward(m: Mapping, bank: u64, hot: u64, cold: u64, r: Mapping)
    requires Valid(m) && bank < NumBanks && hot < NumRegionsPerBank && cold < NumRegionsPerBank
    requires r.forward == m.forward[Key(bank, hot) := m.forward[Key(bank, cold)]][Key(bank, cold) := m.forward[Key(bank, hot)]]
    requires r.inverse == m.inverse[Key(bank, m.forward[Key(bank, hot)]) := cold][Key(bank, m.forward[Key(bank, cold)]) := hot]
    requires Covers(r.forward) && Covers(r.inverse)
    ensures forall b: u64, p: u64 :: b < NumBanks && p < NumRegionsPerBank ==>
              r.forward[Key(b, r.inverse[Key(b, p)])] == p
  {
    var prnHot, prnCold := m.forward[Key(bank, hot)], m.forward[Key(bank, cold)];
    assert m.inverse[Key(bank, prnHot)] == hot && m.inverse[Key(bank, prnCold)] == cold;
    forall b: u64, p: u64 | b < NumBanks && p < NumRegionsPerBank
      ensures r.forward[Key(b, r.inverse[Key(b, p)])] == p
    {
      var v := m.inverse[Key(b, p)];
      assert m.forward[Key(b, v)] == p;
      if !(b == bank && (p == prnHot || p == prnCold)) {
        assert r.inverse[Key(b, p)] == v;
        assert b == bank ==> v != hot && v != cold;
      }
    }
  }

  /** Per bank, the forward entry of v is p exactly when the inverse entry
      of p is v. */
  lemma BijectionIff(m: Mapping, bank: u64, vrn: u64, prn: u64)
    requires Valid(m) && bank < NumBanks && vrn < NumRegionsPerBank && prn < NumRegionsPerBank
    ensures Lookup(m, bank, vrn) == prn <==> GetVRNFromPRN(m, bank, prn) == vrn
  {
  }

  /** The forward tables decide the inverse tables: two consistent
      mappings with the same forward entries are equal. */
  lemma ForwardDeterminesMapping(m1: Mapping, m2: Mapping)
    requires Valid(m1) && Valid(m2)
    requires forall b: u64, v: u64 :: b < NumBanks && v < NumRegionsPerBank ==> Lookup(m1, b, v) == Lookup(m2, b, v)
    ensures m1 == m2
  {
    forall k: u64 | k in m1.forward
      ensures m1.forward[k] == m2.forward[k]
    {
      KeyOf(k);
      assert Lookup(m1, k / NumRegionsPerBank, k % NumRegionsPerBank) == Lookup(m2, k / NumRegionsPerBank, k % NumRegionsPerBank);
    }
    forall k: u64 | k in m1.inverse
      ensures m1.inverse[k] == m2.inverse[k]
    {
      KeyOf(k);
      var b, p := k / NumRegionsPerBank, k % NumRegionsPerBank;
      var v := GetVRNFromPRN(m1, b, p);
      assert Lookup(m2, b, v) == p;
    }
    assert m1.forward == m2.forward;
    assert m1.inverse == m2.inverse;
  }

  /** After initialisation every translation is the identity. */
  lemma IdentityTranslate(m: Mapping, bank: u64, vra: u64)
    requires Valid(m) && IsIdentity(m) && bank < NumBanks && vra < AddressSpace
    ensures Translate(m, bank, vra) == vra
  {
    ComposeDecompose(vra);
  }

  /** After initialisation every inverse lookup is the identity. */
  lemma IdentityInverse(m: Mapping, bank: u64, prn: u64)
    requires Valid(m) && IsIdentity(m) && bank < NumBanks && prn < NumRegionsPerBank
    ensures GetVRNFromPRN(m, bank, prn) == prn
  {
  }

  /** After a swap, row `ro` of the hot region is row `ro` of the physical
      region that backed the cold one, and the other way round. */
  lemma SwapTranslate(m: Mapping, bank: u64, hot: u64, cold: u64, ro: u64)
    requires Valid(m) && bank < NumBanks && hot < NumRegionsPerBank && cold < NumRegionsPerBank
    requires ro < RegionSize
    ensures Translate(Swap(m, bank, hot, cold), bank, Compose(RegionAddress(hot, ro)))
              == Compose(RegionAddress(Lookup(m, bank, cold), ro))
    ensures Translate(Swap(m, bank, hot, cold), bank, Compose(RegionAddress(cold, ro)))
              == Compose(RegionAddress(Lookup(m, bank, hot), ro))
  {
    DecomposeCompose(RegionAddress(hot, ro));
    DecomposeCompose(RegionAddress(cold, ro));
  }

  /** A swap in one bank changes no translation and no inverse lookup in
      any other bank. */
  lemma SwapIsolation(m: Mapping, bank: u64, hot: u64, cold: u64, other: u64, vra: u64, prn: u64)
    requires Valid(m) && bank < NumBanks && hot < NumRegionsPerBank && cold < NumRegionsPerBank
    requires other < NumBanks && other != bank && vra < AddressSpace && prn < NumRegionsPerBank
    ensures Translate(Swap(m, bank, hot, cold), other, vra) == Translate(m, other, vra)
    ensures GetVRNFromPRN(Swap(m, bank, hot, cold), other, prn) == GetVRNFromPRN(m, other, prn)
  {
    var r := Swap(m, bank, hot, cold);
    var v := GetVRNFromPRN(r, other, prn);
    assert Lookup(m, other, v) == prn;
  }

  /** Swapping a virtual region with itself changes nothing. */
  lemma SwapSelf(m: Mapping, bank: u64, vrn: u64)
    requires Valid(m) && bank < NumBanks && vrn < NumRegionsPerBank
    ensures Swap(m, bank, vrn, vrn) == m
  {
    ForwardDeterminesMapping(Swap(m, bank, vrn, vrn), m);
  }

  /** Swapping the same pair twice restores both tables. */
  lemma SwapInvolution(m: Mapping, bank: u64, hot: u64, cold: u64)
    requires Valid(m) && bank < NumBanks && hot < NumRegionsPerBank && cold < NumRegionsPerBank
    ensures Swap(Swap(m, bank, hot, cold), bank, hot, cold) == m
  {
    ForwardDeterminesMapping(Swap(Swap(m, bank, hot, cold), bank, hot, cold), m);
  }

  /** One call of SwapRegions. */
  datatype SwapRequest = SwapRequest(bank: u64, hot: u64, cold: u64)

  predicate InRangeRequest(q: SwapRequest)
  {
    q.bank < NumBanks && q.hot < NumRegionsPerBank && q.cold < NumRegionsPerBank
  }

  /** The swaps of a migration batch applied in order.  Every intermediate
      pair of tables, and so the final one, is consistent; a bank no
      request names keeps every entry. */
  function ApplySwaps(m: Mapping, qs: seq<SwapRequest>): (r: Mapping)
    requires Valid(m) && forall i :: 0 <= i < |qs| ==> InRangeRequest(qs[i])
    ensures Valid(r)
    ensures forall b: u64, v: u64 ::
              (b < NumBanks && v < NumRegionsPerBank && forall i :: 0 <= i < |qs| ==> qs[i].bank != b) ==>
              Lookup(r, b, v) == Lookup(m, b, v)
    decreases |qs|
  {
    if |qs| == 0 then m
    else
      assert InRangeRequest(qs[0]);
      ApplySwaps(Swap(m, qs[0].bank, qs[0].hot, qs[0].cold), qs[1..])
  }

  /** Translate exactly as the source writes it, for any bank and VRA:
      the key is the raw `(bank << 10) | VRN` with no range check, and a
      key missing from the dictionary reads as PRN 0, the value a
      dictionary lookup by subscript yields for an absent key. */
  function TranslateAsWritten(m: Mapping, bank: u64, vra: u64): u64
  {
    var a := Decompose(vra);
    var key := PackedKey(bank, a.region);
    var prn := if key in m.forward then m.forward[key] else 0;
    Compose(RegionAddress(prn, a.offset))
  }

  /** In range, the unchecked translation is Translate. */
  lemma TranslateAsWrittenInRange(m: Mapping, bank: u64, vra: u64)
    requires Valid(m) && bank < NumBanks && vra < AddressSpace
    ensures TranslateAsWritten(m, bank, vra) == Translate(m, bank, vra)
  {
    KeyIsPacked(bank, Decompose(vra).region);
  }

  /** Past the end of bank 0's address space the unchecked translation
      reads bank 1's table: VRA 66176 of bank 0 (region 1034, row 0) is
      translated as VRA 640 of bank 1 (region 10, row 0). */
  lemma OutOfRangeVraReadsNextBank(m: Mapping)
    requires Valid(m)
    ensures TranslateAsWritten(m, 0, 66176) == Translate(m, 1, 640)
  {
    DecomposeCompose(RegionAddress(10, 0));
    assert Decompose(66176) == RegionAddress(1034, 0) by {
      DivModUnique(66176, RegionSize, 1034, 0);
    }
    KeyAliasesOutOfRange();
  }

  /** A bank past the last one has no entries, so the unchecked
      translation sends every row of it to the same row of PRN 0. */
  lemma MissingBankReadsRegionZero(m: Mapping, vra: u64)
    requires Valid(m) && vra < AddressSpace
    ensures TranslateAsWritten(m, NumBanks, vra) == Decompose(vra).offset
  {
    var a := Decompose(vra);
    PackedKeyValue(NumBanks, a.region);
    DecomposeCompose(RegionAddress(0, a.offset));
  }

  /** Translate with the range checks the tables need: no result for a
      bank or VRA outside the mapped space, the translation otherwise. */
  function CheckedTranslate(m: Mapping, bank: u64, vra: u64): (r: Option<u64>)
    requires Valid(m)
    ensures r.Some? <==> bank < NumBanks && vra < AddressSpace
    ensures r.Some? ==> r.value < AddressSpace && Decompose(r.value).offset == Decompose(vra).offset &&
                        GetVRNFromPRN(m, bank, Decompose(r.value).region) == Decompose(vra).region
  {
    if bank < NumBanks && vra < AddressSpace then Some(Translate(m, bank, vra)) else None
  }

  /** GetVRNFromPRN with the range checks the tables need. */
  function CheckedGetVRNFromPRN(m: Mapping, bank: u64, prn: u64): (r: Option<u64>)
    requires Valid(m)
    ensures r.Some? <==> bank < NumBanks && prn < NumRegionsPerBank
    ensures r.Some? ==> r.value < NumRegionsPerBank && Lookup(m, bank, r.value) == prn
  {
    if bank < NumBanks && prn < NumRegionsPerBank then Some(GetVRNFromPRN(m, bank, prn)) else None
  }
}

/** The signatures-per-population ratio and the comparator the ranking sorts by. */
module Ratio {
  import opened Types
  import opened Join

  /** `calc_perc_pop`: a record's signature count over its constituency's population. */
  function CalcPercPop(r: SignatureRecord, hexes: Hexes): (ratio: real)
    requires Joinable(r, hexes)
    ensures ratio >= 0.0
  {
    r.signatureCount as real / hexes[r.onsCode].p as real
  }

  /**
   * The ratio is the number that, multiplied by the constituency's
   * population, gives back the signature count; it is zero exactly when
   * nobody there signed.
   */
  lemma CalcPercPopMeaning(r: SignatureRecord, hexes: Hexes)
    requires Joinable(r, hexes)
    ensures CalcPercPop(r, hexes) == 0.0 <==> r.signatureCount == 0
    ensures CalcPercPop(r, hexes) * (hexes[r.onsCode].p as real) == r.signatureCount as real
  {
  }

  /**
   * `calc_perc_pop_from_hex`: the ratio shown for the hex with code `key`;
   * zero when the petition has no record for that code, in which case the
   * population is never divided by.
   */
  function CalcPercPopFromHex(key: string, hex: Hex, signaturesCount: map<string, SignatureRecord>): (ratio: real)
    requires key in signaturesCount ==> hex.p > 0
    ensures key !in signaturesCount ==> ratio == 0.0
    ensures key in signaturesCount ==>
      ratio >= 0.0 && ratio * (hex.p as real) == signaturesCount[key].signatureCount as real
  {
    if key !in signaturesCount then 0.0
    else signaturesCount[key].signatureCount as real / hex.p as real
  }

  /** For positive `p` and `q`, `x / p` exceeds `y / q` exactly when `x * q` exceeds `y * p`. */
  lemma RatioGreaterCrossMultiplied(x: nat, p: nat, y: nat, q: nat)
    requires p > 0 && q > 0
    ensures (x as real / p as real > y as real / q as real) <==> x * q > y * p
  {
    var rx, ry := x as real / p as real, y as real / q as real;
    var pq := (p * q) as real;
    assert pq > 0.0;
    assert rx * pq == (x * q) as real;
    assert ry * pq == (y * p) as real;
    if rx > ry {
      assert rx * pq > ry * pq;
    } else {
      assert rx * pq <= ry * pq;
    }
  }

  /**
   * The sort comparator: -1 puts `a` first (higher ratio), 1 puts `b` first,
   * 0 is a tie. It decides exactly as integer cross-multiplication of
   * signature counts and populations would: the ordering needs no division.
   */
  function Compare(a: SignatureRecord, b: SignatureRecord, hexes: Hexes): (c: int)
    requires Joinable(a, hexes) && Joinable(b, hexes)
    ensures var pa, pb := hexes[a.onsCode].p, hexes[b.onsCode].p;
      && (c == -1 <==> a.signatureCount * pb > b.signatureCount * pa)
      && (c == 1 <==> a.signatureCount * pb < b.signatureCount * pa)
      && (c == 0 <==> a.signatureCount * pb == b.signatureCount * pa)
  {
    var pa, pb := hexes[a.onsCode].p, hexes[b.onsCode].p;
    RatioGreaterCrossMultiplied(a.signatureCount, pa, b.signatureCount, pb);
    RatioGreaterCrossMultiplied(b.signatureCount, pb, a.signatureCount, pa);
    if CalcPercPop(a, hexes) > CalcPercPop(b, hexes) then -1
    else if CalcPercPop(a, hexes) < CalcPercPop(b, hexes) then 1
    else 0
  }

  /**
   * Colouring a hex and colouring a bar agree: for a constituency with
   * records, the hex ratio is the ratio of the last record with its code;
   * for one without, it is zero.
   */
  lemma HexRatioMatchesRecordRatio(records: seq<SignatureRecord>, hexes: Hexes, k: string)
    requires AllJoinable(records, hexes) && k in hexes
    ensures k in SignaturesCount(records) ==> hexes[k].p > 0
    ensures forall i :: IsLastWithCode(records, i, k) ==>
      CalcPercPopFromHex(k, hexes[k], SignaturesCount(records)) == CalcPercPop(records[i], hexes)
    ensures k !in Codes(records) ==> CalcPercPopFromHex(k, hexes[k], SignaturesCount(records)) == 0.0
  {
    SignaturesCountLastWins(records);
    if k in SignaturesCount(records) {
      var i :| IsLastWithCode(records, i, k) && SignaturesCount(records)[k] == records[i];
    }
    forall i | IsLastWithCode(records, i, k)
      ensures CalcPercPopFromHex(k, hexes[k], SignaturesCount(records)) == CalcPercPop(records[i], hexes)
    {
      LastWithCodeIsLookedUp(records, i, k);
    }
  }
}

/**
 * The data pipeline at the top of `drawMap`: join, rank in place, select the
 * bars and take the maxima that the scales are built from.
 */
module Pipeline {
  import opened Types
  import opened Ratio
  import opened Join
  import opened Rank
  import opened Selection
  import opened Maxima

  /** What the pipeline hands to the scales and the drawing code. */
  datatype MapData = MapData(
    signaturesCount: map<string, SignatureRecord>,
    selected: seq<SignatureRecord>,
    maxSignatures: int,
    maxPop: int)

  /**
   * Lines 12-56: builds the lookup from the records as they arrive, sorts
   * the records in place (so the "sorted" array and the petition's list are
   * one array afterwards), selects the bars from it and takes the maxima;
   * `maxSignatures` is read from the already sorted array and still is the
   * maximum of the input.
   */
  method DrawMapData(signatures: array<SignatureRecord>, hexes: Hexes, hexValues: seq<Hex>) returns (d: MapData)
    requires AllJoinable(signatures[..], hexes)
    requires ListsValues(hexes, hexValues)
    modifies signatures
    ensures signatures[..] == SortByPercPop(old(signatures[..]), hexes)
    ensures d.signaturesCount == SignaturesCount(old(signatures[..]))
    ensures d.selected == SelectConstituencies(signatures[..])
    ensures d.maxSignatures == MaxSignatures(old(signatures[..]))
    ensures d.maxPop == MaxPop(hexValues)
    ensures forall k :: k in hexes ==> d.maxPop >= hexes[k].p
    ensures hexes == map[] ==> d.maxPop == 0
    ensures hexes != map[] ==> exists k :: k in hexes && d.maxPop == hexes[k].p
  {
    ghost var input := signatures[..];
    var signaturesCount := BuildSignaturesCount(signatures[..]);
    SortSignatures(signatures, hexes);
    var selected := SelectConstituencies(signatures[..]);
    var maxSignatures := MaxSignatures(signatures[..]);
    SortByPercPopPermutes(input, hexes);
    MaxSignaturesOrderIndependent(signatures[..], input);
    var maxPop := MaxPop(hexValues);
    MaxPopOfTable(hexes, hexValues);
    d := MapData(signaturesCount, selected, maxSignatures, maxPop);
  }

  /**
   * For a non-empty petition, the first bar is a record with the highest
   * ratio of all and the last bar a record with the lowest.
   */
  lemma SelectionExtremes(records: seq<SignatureRecord>, hexes: Hexes)
    requires AllJoinable(records, hexes) && records != []
    ensures var sel := SelectConstituencies(SortByPercPop(records, hexes));
      && sel != [] && sel[0] in records && sel[|sel| - 1] in records
      && Joinable(sel[0], hexes) && Joinable(sel[|sel| - 1], hexes)
      && forall i :: 0 <= i < |records| ==>
           CalcPercPop(sel[0], hexes) >= CalcPercPop(records[i], hexes) >= CalcPercPop(sel[|sel| - 1], hexes)
  {
    var sorted := SortByPercPop(records, hexes);
    var first, last := SortedExtremes(records, hexes);
    var sel := SelectConstituencies(sorted);
    assert sel[0] == sorted[0] && sel[|sel| - 1] == sorted[|sorted| - 1];
    assert Joinable(records[first], hexes) && Joinable(records[last], hexes);
    forall i | 0 <= i < |records|
      ensures CalcPercPop(sel[0], hexes) >= CalcPercPop(records[i], hexes) >= CalcPercPop(sel[|sel| - 1], hexes)
    {
      assert Joinable(records[i], hexes);
    }
  }
}

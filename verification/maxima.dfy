/**
 * `maxSignatures` and `maxPop`: `reduce((m, x) => m > x ? m : x, 0)` over
 * the records' signature counts and over the hex table's populations.
 */
module Maxima {
  import opened Types

  /**
   * The left fold `xs.reduce((m, x) => m > x ? m : x, acc)`: at least the
   * seed and every element, and equal to the seed or to one of the elements.
   */
  function MaxReduce(acc: int, xs: seq<int>): (m: int)
    ensures m >= acc
    ensures forall i :: 0 <= i < |xs| ==> m >= xs[i]
    ensures m == acc || exists i :: 0 <= i < |xs| && m == xs[i]
    decreases |xs|
  {
    if xs == [] then acc
    else
      var m := MaxReduce(if acc > xs[0] then acc else xs[0], xs[1..]);
      assert forall i :: 1 <= i < |xs| ==> xs[i] == xs[1..][i - 1];
      m
  }

  function SignatureCounts(records: seq<SignatureRecord>): (counts: seq<int>)
    ensures |counts| == |records|
    ensures forall i :: 0 <= i < |records| ==> counts[i] == records[i].signatureCount
  {
    if records == [] then []
    else [records[0].signatureCount] + SignatureCounts(records[1..])
  }

  function Populations(hexValues: seq<Hex>): (pops: seq<int>)
    ensures |pops| == |hexValues|
    ensures forall i :: 0 <= i < |hexValues| ==> pops[i] == hexValues[i].p
  {
    if hexValues == [] then []
    else [hexValues[0].p] + Populations(hexValues[1..])
  }

  /** Lines 48-51: the largest signature count, 0 for no records. */
  function MaxSignatures(records: seq<SignatureRecord>): (m: int)
    ensures m >= 0
    ensures forall i :: 0 <= i < |records| ==> m >= records[i].signatureCount
    ensures records == [] ==> m == 0
    ensures records != [] ==> exists i :: 0 <= i < |records| && m == records[i].signatureCount
  {
    MaxReduce(0, SignatureCounts(records))
  }

  /**
   * Lines 53-56: the largest population over `Object.values(hexes)`, given
   * in the object's iteration order; 0 when there are no hexes.
   */
  function MaxPop(hexValues: seq<Hex>): (m: int)
    ensures m >= 0
    ensures forall i :: 0 <= i < |hexValues| ==> m >= hexValues[i].p
    ensures hexValues == [] ==> m == 0
    ensures hexValues != [] ==> exists i :: 0 <= i < |hexValues| && m == hexValues[i].p
  {
    MaxReduce(0, Populations(hexValues))
  }

  /** The maximum does not depend on the order of the records, so sorting first changes nothing. */
  lemma MaxSignaturesOrderIndependent(s: seq<SignatureRecord>, t: seq<SignatureRecord>)
    requires multiset(s) == multiset(t)
    ensures MaxSignatures(s) == MaxSignatures(t)
  {
    forall s': seq<SignatureRecord>, t': seq<SignatureRecord> | multiset(s') == multiset(t') ensures MaxSignatures(s') <= MaxSignatures(t') {
      if s' != [] {
        var i :| 0 <= i < |s'| && MaxSignatures(s') == s'[i].signatureCount;
        assert s'[i] in multiset(t');
        var j :| 0 <= j < |t'| && t'[j] == s'[i];
      }
    }
  }

  /** `hexValues` lists the values of the hex table (in some order). */
  ghost predicate ListsValues(hexes: Hexes, hexValues: seq<Hex>) {
    && (forall k :: k in hexes ==> hexes[k] in hexValues)
    && (forall i :: 0 <= i < |hexValues| ==> hexValues[i] in hexes.Values)
  }

  /**
   * Whatever order `Object.values` lists the table in, `maxPop` is the
   * largest population in the table, or 0 for an empty table.
   */
  lemma MaxPopOfTable(hexes: Hexes, hexValues: seq<Hex>)
    requires ListsValues(hexes, hexValues)
    ensures forall k :: k in hexes ==> MaxPop(hexValues) >= hexes[k].p
    ensures hexes == map[] ==> MaxPop(hexValues) == 0
    ensures hexes != map[] ==> exists k :: k in hexes && MaxPop(hexValues) == hexes[k].p
  {
    var m := MaxPop(hexValues);
    if hexes != map[] {
      var k0 :| k0 in hexes;
      assert hexes[k0] in hexValues;
      var i :| 0 <= i < |hexValues| && m == hexValues[i].p;
      assert hexValues[i] in hexes.Values;
      var k :| k in hexes && hexes[k] == hexValues[i];
    }
  }
}

/**
 * The bar-chart selection: the first and the last `n_sel_constituencies / 2`
 * records of the ranked array, taken with JavaScript's `slice`.
 */
module Selection {
  import opened Types

  /** `n_sel_constituencies`: how many bars the chart is meant to show. */
  const NSelConstituencies: int := 100

  function Min(x: int, y: int): int { if x <= y then x else y }
  function Max(x: int, y: int): int { if x <= y then y else x }

  /**
   * JavaScript's reading of a `slice` bound: a negative bound counts back
   * from the end, and the result is clamped to `[0, len]`.
   */
  function SliceBound(rel: int, len: nat): (k: nat)
    ensures k <= len
    ensures 0 <= rel <= len ==> k == rel
    ensures rel < 0 && 0 <= len + rel ==> k == len + rel
    ensures rel > len ==> k == len
    ensures len + rel < 0 ==> k == 0
  {
    if rel < 0 then Max(len + rel, 0) else Min(rel, len)
  }

  /** `s.slice(begin, end)`: empty when the clamped end is not past the clamped start. */
  function Slice<T>(s: seq<T>, begin: int, end: int): (r: seq<T>)
    ensures var b, e := SliceBound(begin, |s|), SliceBound(end, |s|);
      && |r| == Max(e - b, 0)
      && forall i :: 0 <= i < |r| ==> r[i] == s[b + i]
  {
    var b, e := SliceBound(begin, |s|), SliceBound(end, |s|);
    if b < e then s[b..e] else []
  }

  /** `s.slice(begin)`: from `begin` to the end. */
  function SliceFrom<T>(s: seq<T>, begin: int): (r: seq<T>)
    ensures r == s[SliceBound(begin, |s|)..]
  {
    Slice(s, begin, |s|)
  }

  /**
   * Lines 44-46: the first half-selection of records followed by the last.
   * With `h = min(50, n)`, the selection has `2 * h` records: the first `h`
   * ranked records in order, then the last `h` ranked records in order.
   */
  function SelectConstituencies(sorted: seq<SignatureRecord>): (sel: seq<SignatureRecord>)
    ensures var n, h := |sorted|, Min(NSelConstituencies / 2, |sorted|);
      && |sel| == 2 * h
      && (forall i :: 0 <= i < h ==> sel[i] == sorted[i])
      && (forall i :: h <= i < 2 * h ==> sel[i] == sorted[n - 2 * h + i])
  {
    Slice(sorted, 0, NSelConstituencies / 2) + SliceFrom(sorted, -NSelConstituencies / 2)
  }

  /**
   * From 100 records on, the two halves come from disjoint stretches of the
   * ranking, so no record is shown more often than it occurs.
   */
  lemma SelectionHalvesDisjoint(sorted: seq<SignatureRecord>)
    requires |sorted| >= NSelConstituencies
    ensures 50 <= |sorted| - 50
    ensures SelectConstituencies(sorted) == sorted[..50] + sorted[|sorted| - 50..]
    ensures multiset(SelectConstituencies(sorted)) <= multiset(sorted)
  {
    var n := |sorted|;
    var front, middle, back := sorted[..50], sorted[50..n - 50], sorted[n - 50..];
    assert Slice(sorted, 0, NSelConstituencies / 2) == front;
    assert SliceFrom(sorted, -NSelConstituencies / 2) == back;
    assert sorted == front + middle + back;
    assert multiset(sorted) == multiset(front) + multiset(middle) + multiset(back);
  }

  /** Up to 50 records, each half is the whole ranking, so every record is shown twice. */
  lemma SelectionSmall(sorted: seq<SignatureRecord>)
    requires |sorted| <= NSelConstituencies / 2
    ensures SelectConstituencies(sorted) == sorted + sorted
  {
    assert sorted[0..|sorted|] == sorted;
  }

  /** Every selected record is one of the ranked records. */
  lemma SelectionFromRanking(sorted: seq<SignatureRecord>)
    ensures forall i :: 0 <= i < |SelectConstituencies(sorted)| ==> SelectConstituencies(sorted)[i] in sorted
  {
  }
}

/**
 * The ranking: `signatures_by_constituency.sort(...)` reorders the records in
 * place, highest ratio first, with the comparator returning 0 on ties and the
 * sort being stable.
 */
module Rank {
  import opened Types
  import opened Ratio

  /**
   * The sort key: `calc_perc_pop` of a record. The sort is only applied to
   * joinable records; the value given to any other record is never used.
   */
  function PercPopKey(r: SignatureRecord, hexes: Hexes): real {
    if Joinable(r, hexes) then CalcPercPop(r, hexes) else 0.0
  }

  /** `s` is non-increasing by ratio. */
  ghost predicate SortedByPercPop(s: seq<SignatureRecord>, hexes: Hexes) {
    forall i, j :: 0 <= i < j < |s| ==> PercPopKey(s[i], hexes) >= PercPopKey(s[j], hexes)
  }

  /** The records of `s` whose ratio is `v` (one tie class), in their order in `s`. */
  function WithRatio(s: seq<SignatureRecord>, v: real, hexes: Hexes): seq<SignatureRecord> {
    if s == [] then []
    else (if PercPopKey(s[0], hexes) == v then [s[0]] else []) + WithRatio(s[1..], v, hexes)
  }

  /**
   * Places `x` after every record of `sorted` whose ratio is at least its
   * own: one step of a stable insertion sort, working from the right.
   */
  function Insert(sorted: seq<SignatureRecord>, x: SignatureRecord, hexes: Hexes): (r: seq<SignatureRecord>)
  {
    if sorted == [] then [x]
    else if PercPopKey(sorted[|sorted| - 1], hexes) >= PercPopKey(x, hexes) then sorted + [x]
    else Insert(sorted[..|sorted| - 1], x, hexes) + [sorted[|sorted| - 1]]
  }

  /** The order the stable descending sort produces: insert the records one by one. */
  function SortByPercPop(s: seq<SignatureRecord>, hexes: Hexes): (sorted: seq<SignatureRecord>)
  {
    if s == [] then []
    else Insert(SortByPercPop(s[..|s| - 1], hexes), s[|s| - 1], hexes)
  }

  /** On joinable records the comparator and the key order agree. */
  lemma CompareMatchesKey(a: SignatureRecord, b: SignatureRecord, hexes: Hexes)
    requires Joinable(a, hexes) && Joinable(b, hexes)
    ensures Compare(a, b, hexes) > 0 <==> PercPopKey(a, hexes) < PercPopKey(b, hexes)
    ensures Compare(a, b, hexes) == 0 <==> PercPopKey(a, hexes) == PercPopKey(b, hexes)
  {
  }

  lemma {:induction false} WithRatioConcat(a: seq<SignatureRecord>, b: seq<SignatureRecord>, v: real, hexes: Hexes)
    ensures WithRatio(a + b, v, hexes) == WithRatio(a, v, hexes) + WithRatio(b, v, hexes)
  {
    if a == [] {
      assert a + b == b;
    } else {
      assert (a + b)[0] == a[0];
      assert (a + b)[1..] == a[1..] + b;
      WithRatioConcat(a[1..], b, v, hexes);
    }
  }

  lemma WithRatioSingleton(x: SignatureRecord, v: real, hexes: Hexes)
    ensures WithRatio([x], v, hexes) == if PercPopKey(x, hexes) == v then [x] else []
  {
    assert [x][1..] == [];
  }

  /** Inserting `x` appends it to the records of its own ratio and leaves the other tie classes alone. */
  lemma {:induction false} InsertWithRatio(sorted: seq<SignatureRecord>, x: SignatureRecord, v: real, hexes: Hexes)
    ensures WithRatio(Insert(sorted, x, hexes), v, hexes) == WithRatio(sorted, v, hexes) + WithRatio([x], v, hexes)
  {
    if sorted == [] {
    } else if PercPopKey(sorted[|sorted| - 1], hexes) >= PercPopKey(x, hexes) {
      WithRatioConcat(sorted, [x], v, hexes);
    } else {
      var init, last := sorted[..|sorted| - 1], sorted[|sorted| - 1];
      assert sorted == init + [last];
      var ins := Insert(init, x, hexes);
      var wi, wx, wl := WithRatio(init, v, hexes), WithRatio([x], v, hexes), WithRatio([last], v, hexes);
      assert WithRatio(Insert(sorted, x, hexes), v, hexes) == wi + wx + wl by {
        InsertWithRatio(init, x, v, hexes);
        WithRatioConcat(ins, [last], v, hexes);
      }
      assert WithRatio(sorted, v, hexes) == wi + wl by {
        WithRatioConcat(init, [last], v, hexes);
      }
      // `last` has a smaller ratio than `x`, so at most one of them has ratio `v`
      // and the order between them does not show in the result.
      assert wx == [] || wl == [] by {
        WithRatioSingleton(x, v, hexes);
        WithRatioSingleton(last, v, hexes);
      }
    }
  }

  /** Inserting adds `x` and loses nothing. */
  lemma {:induction false} InsertPermutes(sorted: seq<SignatureRecord>, x: SignatureRecord, hexes: Hexes)
    ensures multiset(Insert(sorted, x, hexes)) == multiset(sorted) + multiset{x}
  {
    if sorted != [] && PercPopKey(sorted[|sorted| - 1], hexes) < PercPopKey(x, hexes) {
      var init, last := sorted[..|sorted| - 1], sorted[|sorted| - 1];
      assert sorted == init + [last];
      InsertPermutes(init, x, hexes);
    }
  }

  /** The sort's result is a permutation of its input. */
  lemma {:induction false} SortByPercPopPermutes(s: seq<SignatureRecord>, hexes: Hexes)
    ensures multiset(SortByPercPop(s, hexes)) == multiset(s)
  {
    if s != [] {
      var init, last := s[..|s| - 1], s[|s| - 1];
      assert s == init + [last];
      SortByPercPopPermutes(init, hexes);
      InsertPermutes(SortByPercPop(init, hexes), last, hexes);
    }
  }

  lemma {:induction false} InsertSorted(sorted: seq<SignatureRecord>, x: SignatureRecord, hexes: Hexes)
    requires SortedByPercPop(sorted, hexes)
    ensures SortedByPercPop(Insert(sorted, x, hexes), hexes)
  {
    if sorted != [] && PercPopKey(sorted[|sorted| - 1], hexes) < PercPopKey(x, hexes) {
      var init, last := sorted[..|sorted| - 1], sorted[|sorted| - 1];
      InsertSorted(init, x, hexes);
      InsertPermutes(init, x, hexes);
      var ins := Insert(init, x, hexes);
      forall i | 0 <= i < |ins| ensures PercPopKey(ins[i], hexes) >= PercPopKey(last, hexes) {
        assert ins[i] in multiset(ins);
        if ins[i] != x {
          assert ins[i] in multiset(init);
          var k :| 0 <= k < |init| && init[k] == ins[i];
          assert sorted[k] == init[k];
        }
      }
    }
  }

  /** The sort's result is non-increasing by ratio. */
  lemma {:induction false} SortByPercPopSorted(s: seq<SignatureRecord>, hexes: Hexes)
    ensures SortedByPercPop(SortByPercPop(s, hexes), hexes)
  {
    if s != [] {
      SortByPercPopSorted(s[..|s| - 1], hexes);
      InsertSorted(SortByPercPop(s[..|s| - 1], hexes), s[|s| - 1], hexes);
    }
  }

  /**
   * Stability: for every ratio, the records with that ratio appear in the
   * sorted order exactly as they did in the input.
   */
  lemma {:induction false} SortByPercPopStable(s: seq<SignatureRecord>, v: real, hexes: Hexes)
    ensures WithRatio(SortByPercPop(s, hexes), v, hexes) == WithRatio(s, v, hexes)
  {
    if s != [] {
      var init, last := s[..|s| - 1], s[|s| - 1];
      assert s == init + [last];
      SortByPercPopStable(init, v, hexes);
      InsertWithRatio(SortByPercPop(init, hexes), last, v, hexes);
      WithRatioConcat(init, [last], v, hexes);
    }
  }

  /** The first record opens its own tie class. */
  lemma WithRatioHead(s: seq<SignatureRecord>, hexes: Hexes)
    requires s != []
    ensures WithRatio(s, PercPopKey(s[0], hexes), hexes) != []
    ensures WithRatio(s, PercPopKey(s[0], hexes), hexes)[0] == s[0]
  {
  }

  /** Dropping the first record drops it from its tie class only. */
  lemma WithRatioTail(s: seq<SignatureRecord>, v: real, hexes: Hexes)
    requires s != []
    ensures WithRatio(s[1..], v, hexes) == WithRatio(s, v, hexes)[if PercPopKey(s[0], hexes) == v then 1 else 0..]
  {
    var head := if PercPopKey(s[0], hexes) == v then [s[0]] else [];
    assert WithRatio(s, v, hexes) == head + WithRatio(s[1..], v, hexes);
  }

  /** A non-empty tie class of a sorted arrangement has a ratio no greater than the first record's. */
  lemma {:induction false} WithRatioMember(s: seq<SignatureRecord>, v: real, hexes: Hexes)
    requires SortedByPercPop(s, hexes)
    requires WithRatio(s, v, hexes) != []
    ensures s != [] && v <= PercPopKey(s[0], hexes)
  {
    if s != [] && PercPopKey(s[0], hexes) != v {
      WithRatioMember(s[1..], v, hexes);
      assert s[1..][0] == s[1];
    }
  }

  /**
   * Two arrangements that are both non-increasing by ratio and agree on the
   * order of every tie class are the same arrangement.
   */
  lemma {:induction false} SortedTiesDetermineOrder(s: seq<SignatureRecord>, t: seq<SignatureRecord>, hexes: Hexes)
    requires SortedByPercPop(s, hexes) && SortedByPercPop(t, hexes)
    requires forall v :: WithRatio(s, v, hexes) == WithRatio(t, v, hexes)
    ensures s == t
  {
    if s != [] { WithRatioHead(s, hexes); }
    if t != [] { WithRatioHead(t, hexes); }
    // an empty arrangement has no tie classes, so the other one is empty too
    if s != [] && t != [] {
      var vs, vt := PercPopKey(s[0], hexes), PercPopKey(t[0], hexes);
      assert vs == vt by {
        WithRatioMember(s, vt, hexes);
        WithRatioMember(t, vs, hexes);
      }
      assert s[0] == t[0] by {
        assert WithRatio(s, vs, hexes) == WithRatio(t, vs, hexes);
      }
      forall v ensures WithRatio(s[1..], v, hexes) == WithRatio(t[1..], v, hexes) {
        WithRatioTail(s, v, hexes);
        WithRatioTail(t, v, hexes);
      }
      SortedTiesDetermineOrder(s[1..], t[1..], hexes);
      assert s == [s[0]] + s[1..] && t == [t[0]] + t[1..];
    }
  }

  /**
   * Any arrangement of the records that is non-increasing by ratio and keeps
   * every tie class in input order is exactly `SortByPercPop`: every stable
   * sort with this comparator yields the same array.
   */
  lemma StableSortIsUnique(s: seq<SignatureRecord>, t: seq<SignatureRecord>, hexes: Hexes)
    requires SortedByPercPop(t, hexes)
    requires forall v :: WithRatio(t, v, hexes) == WithRatio(s, v, hexes)
    ensures t == SortByPercPop(s, hexes)
  {
    SortByPercPopSorted(s, hexes);
    forall v ensures WithRatio(t, v, hexes) == WithRatio(SortByPercPop(s, hexes), v, hexes) {
      SortByPercPopStable(s, v, hexes);
    }
    SortedTiesDetermineOrder(t, SortByPercPop(s, hexes), hexes);
  }

  /**
   * The first record of the ranking has the highest ratio of all the
   * records and the last one the lowest; both are records of the input,
   * found at the returned positions.
   */
  lemma SortedExtremes(records: seq<SignatureRecord>, hexes: Hexes) returns (first: int, last: int)
    requires records != []
    ensures var sorted := SortByPercPop(records, hexes);
      && |sorted| == |records| && 0 <= first < |records| && 0 <= last < |records|
      && records[first] == sorted[0] && records[last] == sorted[|sorted| - 1]
      && forall i :: 0 <= i < |records| ==>
           PercPopKey(sorted[0], hexes) >= PercPopKey(records[i], hexes) >= PercPopKey(sorted[|sorted| - 1], hexes)
  {
    var sorted := SortByPercPop(records, hexes);
    SortByPercPopPermutes(records, hexes);
    SortByPercPopSorted(records, hexes);
    assert |sorted| == |multiset(sorted)| == |multiset(records)| == |records|;
    assert sorted[0] in multiset(records) && sorted[|sorted| - 1] in multiset(records);
    first :| 0 <= first < |records| && records[first] == sorted[0];
    last :| 0 <= last < |records| && records[last] == sorted[|sorted| - 1];
    forall i | 0 <= i < |records|
      ensures PercPopKey(sorted[0], hexes) >= PercPopKey(records[i], hexes) >= PercPopKey(sorted[|sorted| - 1], hexes)
    {
      assert records[i] in multiset(sorted);
      var k :| 0 <= k < |sorted| && sorted[k] == records[i];
    }
  }

  /**
   * `Insert` puts `x` right after the last record whose ratio is at least
   * that of `x`: in front of the run of smaller-ratio records that ends the
   * sequence.
   */
  lemma {:induction false} InsertAt(prefix: seq<SignatureRecord>, x: SignatureRecord, j: int, hexes: Hexes)
    requires 0 <= j <= |prefix|
    requires forall k :: j <= k < |prefix| ==> PercPopKey(prefix[k], hexes) < PercPopKey(x, hexes)
    requires j == 0 || PercPopKey(prefix[j - 1], hexes) >= PercPopKey(x, hexes)
    ensures Insert(prefix, x, hexes) == prefix[..j] + [x] + prefix[j..]
    decreases |prefix|
  {
    if j == |prefix| {
      if prefix != [] {
        assert PercPopKey(prefix[|prefix| - 1], hexes) >= PercPopKey(x, hexes);
      }
      assert prefix[..j] == prefix && prefix[j..] == [];
    } else {
      var n := |prefix| - 1;
      var init, last := prefix[..n], prefix[n];
      assert PercPopKey(last, hexes) < PercPopKey(x, hexes);
      assert Insert(prefix, x, hexes) == Insert(init, x, hexes) + [last];
      forall k | j <= k < |init| ensures PercPopKey(init[k], hexes) < PercPopKey(x, hexes) {
        assert init[k] == prefix[k];
      }
      assert j == 0 || init[j - 1] == prefix[j - 1];
      InsertAt(init, x, j, hexes);
      assert init[..j] == prefix[..j];
      assert init[j..] + [last] == prefix[j..];
    }
  }

  /**
   * The inner loop of one insertion pass: shifts one place right the records
   * of `a[..i]` that the comparator puts after `key`, scanning from the
   * right, and returns the gap left for `key`: every shifted record has a
   * smaller ratio than `key`, and the record left of the gap does not.
   */
  method ShiftRight(a: array<SignatureRecord>, i: int, key: SignatureRecord, hexes: Hexes) returns (j: int)
    requires 0 <= i < a.Length
    requires forall k :: 0 <= k < i ==> Joinable(a[k], hexes)
    requires Joinable(key, hexes)
    modifies a
    ensures 0 <= j <= i
    ensures forall k :: 0 <= k < j ==> a[k] == old(a[k])
    ensures a[j] == old(a[j])
    ensures forall k :: j < k <= i ==> a[k] == old(a[k - 1])
    ensures forall k :: i < k < a.Length ==> a[k] == old(a[k])
    ensures forall k :: j <= k < i ==> PercPopKey(old(a[k]), hexes) < PercPopKey(key, hexes)
    ensures j == 0 || PercPopKey(old(a[j - 1]), hexes) >= PercPopKey(key, hexes)
  {
    j := i;
    while j > 0 && Compare(a[j - 1], key, hexes) > 0
      invariant 0 <= j <= i
      invariant forall k :: 0 <= k <= j ==> a[k] == old(a[k])
      invariant forall k :: j < k <= i ==> a[k] == old(a[k - 1])
      invariant forall k :: i < k < a.Length ==> a[k] == old(a[k])
      invariant forall k :: j <= k < i ==> PercPopKey(old(a[k]), hexes) < PercPopKey(key, hexes)
    {
      CompareMatchesKey(a[j - 1], key, hexes);
      a[j] := a[j - 1];
      j := j - 1;
    }
    if j > 0 { CompareMatchesKey(a[j - 1], key, hexes); }
  }

  /**
   * One pass of the insertion sort: inserts `a[i]` into the sorted prefix
   * `a[..i]`.
   */
  method InsertNext(a: array<SignatureRecord>, i: int, hexes: Hexes)
    requires 0 <= i < a.Length
    requires AllJoinable(a[..], hexes)
    modifies a
    ensures a[..i + 1] == Insert(old(a[..i]), old(a[i]), hexes)
    ensures forall k :: i < k < a.Length ==> a[k] == old(a[k])
    ensures AllJoinable(a[..], hexes)
  {
    ghost var before := a[..];
    ghost var prefix := a[..i];
    var key := a[i];
    assert forall k :: 0 <= k < i ==> Joinable(a[k], hexes) by {
      forall k | 0 <= k < i ensures Joinable(a[k], hexes) { assert a[k] == before[k]; }
    }
    assert Joinable(key, hexes) by { assert key == before[i]; }
    var j := ShiftRight(a, i, key, hexes);
    InsertAt(prefix, key, j, hexes);
    a[j] := key;
    assert a[..i + 1] == prefix[..j] + [key] + prefix[j..];
    forall k | 0 <= k < a.Length ensures Joinable(a[..][k], hexes) {
      if k != j {
        var src := if j < k <= i then k - 1 else k;
        assert a[k] == before[src];
      }
    }
  }

  /**
   * Lines 32-40: sorts the records in place, highest ratio first, keeping
   * tied records in input order, by a stable insertion sort that calls the
   * comparator.
   */
  method SortSignatures(a: array<SignatureRecord>, hexes: Hexes)
    requires AllJoinable(a[..], hexes)
    modifies a
    ensures a[..] == SortByPercPop(old(a[..]), hexes)
  {
    ghost var input := a[..];
    var i := 0;
    while i < a.Length
      invariant 0 <= i <= a.Length
      invariant a[..i] == SortByPercPop(input[..i], hexes)
      invariant forall k :: i <= k < a.Length ==> a[k] == input[k]
      invariant AllJoinable(a[..], hexes)
    {
      InsertNext(a, i, hexes);
      assert input[..i + 1] == input[..i] + [input[i]];
      i := i + 1;
    }
    assert a[..] == a[..a.Length] && input == input[..a.Length];
  }
}

/**
 * The `signaturesCount` lookup: the petition's records keyed by constituency
 * code, built by a reduce that writes each record into a mutable object.
 */
module Join {
  import opened Types

  /** The set of constituency codes the records mention. */
  function Codes(s: seq<SignatureRecord>): set<string> {
    set i | 0 <= i < |s| :: s[i].onsCode
  }

  /** `s[i]` is the last record in `s` carrying code `k`. */
  predicate IsLastWithCode(s: seq<SignatureRecord>, i: int, k: string) {
    0 <= i < |s| && s[i].onsCode == k && forall j :: i < j < |s| ==> s[j].onsCode != k
  }

  /** The lookup after writing the records one by one, left to right. */
  function SignaturesCount(s: seq<SignatureRecord>): (hashmap: map<string, SignatureRecord>)
    ensures forall k :: k in hashmap ==> hashmap[k].onsCode == k
    ensures s != [] ==> s[|s| - 1].onsCode in hashmap && hashmap[s[|s| - 1].onsCode] == s[|s| - 1]
  {
    if s == [] then map[]
    else SignaturesCount(s[..|s| - 1])[s[|s| - 1].onsCode := s[|s| - 1]]
  }

  /** The lookup has a key for exactly the codes in the list. */
  lemma {:induction false} SignaturesCountKeys(s: seq<SignatureRecord>)
    ensures SignaturesCount(s).Keys == Codes(s)
  {
    if s != [] {
      var init, last := s[..|s| - 1], s[|s| - 1];
      SignaturesCountKeys(init);
      assert s == init + [last];
      CodesSnoc(init, last);
    }
  }

  /** The record the lookup holds under `k` is the last one in `s` with that code, found at `i`. */
  lemma {:induction false} LastWriteIndex(s: seq<SignatureRecord>, k: string) returns (i: int)
    requires k in SignaturesCount(s)
    ensures IsLastWithCode(s, i, k) && SignaturesCount(s)[k] == s[i]
  {
    var init, last := s[..|s| - 1], s[|s| - 1];
    if k == last.onsCode {
      i := |s| - 1;
    } else {
      i := LastWriteIndex(init, k);
      assert forall j :: 0 <= j < |init| ==> s[j] == init[j];
    }
  }

  /**
   * The lookup has a key for exactly the codes in the list, and each key
   * holds the last record with that code, since later writes overwrite
   * earlier ones.
   */
  lemma SignaturesCountLastWins(s: seq<SignatureRecord>)
    ensures SignaturesCount(s).Keys == Codes(s)
    ensures forall k :: k in SignaturesCount(s) ==>
      exists i :: IsLastWithCode(s, i, k) && SignaturesCount(s)[k] == s[i]
  {
    SignaturesCountKeys(s);
    forall k | k in SignaturesCount(s)
      ensures exists i :: IsLastWithCode(s, i, k) && SignaturesCount(s)[k] == s[i]
    {
      var i := LastWriteIndex(s, k);
    }
  }

  lemma CodesSnoc(init: seq<SignatureRecord>, last: SignatureRecord)
    ensures Codes(init + [last]) == Codes(init) + {last.onsCode}
  {
    var s := init + [last];
    forall k | k in Codes(s) ensures k in Codes(init) + {last.onsCode} {
      var i :| 0 <= i < |s| && s[i].onsCode == k;
      if i < |s| - 1 { assert init[i] == s[i]; }
    }
    forall k | k in Codes(init) ensures k in Codes(s) {
      var i :| 0 <= i < |init| && init[i].onsCode == k;
      assert s[i] == init[i];
    }
    assert s[|s| - 1] == last;
  }

  /** A record that is the last with its code is what the lookup returns for that code. */
  lemma LastWithCodeIsLookedUp(s: seq<SignatureRecord>, i: int, k: string)
    requires IsLastWithCode(s, i, k)
    ensures k in SignaturesCount(s) && SignaturesCount(s)[k] == s[i]
  {
    SignaturesCountLastWins(s);
    assert k in Codes(s);
    var i' :| IsLastWithCode(s, i', k) && SignaturesCount(s)[k] == s[i'];
    assert i' == i;
  }

  /**
   * The `reduce` of lines 14-17: starting from an empty object, each record
   * is written under its code, overwriting any earlier record with that code.
   */
  method BuildSignaturesCount(records: seq<SignatureRecord>) returns (hashmap: map<string, SignatureRecord>)
    ensures hashmap == SignaturesCount(records)
    ensures hashmap.Keys == Codes(records)
    ensures forall k :: k in hashmap ==>
      exists i :: IsLastWithCode(records, i, k) && hashmap[k] == records[i]
  {
    hashmap := map[];
    for n := 0 to |records|
      invariant hashmap == SignaturesCount(records[..n])
    {
      assert records[..n + 1][..n] == records[..n];
      hashmap := hashmap[records[n].onsCode := records[n]];
    }
    assert records[..|records|] == records;
    SignaturesCountLastWins(records);
  }
}

/**
 * The two datasets that the map joins: the petition's per-constituency
 * signature records and the hex-grid's table of constituencies.
 */
module Types {

  /** One entry of the petition's `signatures_by_constituency` list. */
  datatype SignatureRecord = SignatureRecord(onsCode: string, mp: string, signatureCount: nat)

  /** One entry of the hex-grid's `hexes` table: population `p`, name `n`, member `mp`. */
  datatype Hex = Hex(p: nat, n: string, mp: string)

  /** The hex-grid's `hexes` table, keyed by constituency code. */
  type Hexes = map<string, Hex>

  /**
   * A record whose ratio can be computed: its code is a key of the hex table
   * and that constituency's population is positive.
   */
  predicate Joinable(r: SignatureRecord, hexes: Hexes) {
    r.onsCode in hexes && hexes[r.onsCode].p > 0
  }

  predicate AllJoinable(s: seq<SignatureRecord>, hexes: Hexes) {
    forall i :: 0 <= i < |s| ==> Joinable(s[i], hexes)
  }
}

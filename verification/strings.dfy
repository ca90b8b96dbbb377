/**
 * The two string helpers: the petition id read from the page's query string
 * (line 251) and the "sign this petition" link made from the petition's
 * `links.self` URL (line 98).
 */
module Strings {

  /** The petition shown when the query string names none. */
  const DefaultPetition: string := "241584"

  /**
   * The characters `String.prototype.trim` removes: ECMAScript's WhiteSpace
   * (tab, vertical tab, form feed, space, no-break space, byte order mark and
   * the Unicode space separators) and LineTerminator code points.
   */
  const JsWhitespace: set<char> := {
    '\t', '\U{000B}', '\U{000C}', ' ', '\U{00A0}', '\U{FEFF}', '\U{1680}',
    '\U{2000}', '\U{2001}', '\U{2002}', '\U{2003}', '\U{2004}', '\U{2005}',
    '\U{2006}', '\U{2007}', '\U{2008}', '\U{2009}', '\U{200A}',
    '\U{202F}', '\U{205F}', '\U{3000}',
    '\n', '\r', '\U{2028}', '\U{2029}'
  }

  predicate IsJsWhitespace(c: char) {
    c in JsWhitespace
  }

  /** Every character of `s` from index `lo` up to `hi` is whitespace. */
  predicate WhitespaceBetween(s: string, lo: int, hi: int)
    requires 0 <= lo && hi <= |s|
  {
    forall k :: lo <= k < hi ==> IsJsWhitespace(s[k])
  }

  predicate AllWhitespace(s: string) {
    WhitespaceBetween(s, 0, |s|)
  }

  /** `s.slice(1)`: everything after the first character; empty for an empty string. */
  function DropFirst(s: string): string {
    if s == [] then [] else s[1..]
  }

  /** The length of the whitespace run that starts `s`. */
  function LeadingWhitespace(s: string): (n: nat)
    ensures n <= |s| && WhitespaceBetween(s, 0, n)
    ensures n < |s| ==> !IsJsWhitespace(s[n])
  {
    if s == [] || !IsJsWhitespace(s[0]) then 0
    else
      var n := LeadingWhitespace(s[1..]);
      assert forall k :: 1 <= k < n + 1 ==> s[k] == s[1..][k - 1];
      n + 1
  }

  /** Where the whitespace run that ends `s` starts. */
  function TrailingWhitespaceStart(s: string): (n: nat)
    ensures n <= |s| && WhitespaceBetween(s, n, |s|)
    ensures n > 0 ==> !IsJsWhitespace(s[n - 1])
  {
    if s == [] || !IsJsWhitespace(s[|s| - 1]) then |s|
    else
      var n := TrailingWhitespaceStart(s[..|s| - 1]);
      assert forall k :: n <= k < |s| - 1 ==> s[k] == s[..|s| - 1][k];
      n
  }

  /** `String.prototype.trim`: `s` without its leading and trailing whitespace. */
  function Trim(s: string): (t: string)
    ensures |t| <= |s|
    ensures t == [] || (!IsJsWhitespace(t[0]) && !IsJsWhitespace(t[|t| - 1]))
  {
    var lo, hi := LeadingWhitespace(s), TrailingWhitespaceStart(s);
    if lo < hi then s[lo..hi] else []
  }

  /**
   * `s` is `Trim(s)` with nothing but whitespace on either side, and
   * `Trim(s)` neither starts nor ends with whitespace.
   */
  lemma TrimCharacterization(s: string)
    ensures var t := Trim(s);
      && (t != [] ==> !IsJsWhitespace(t[0]) && !IsJsWhitespace(t[|t| - 1]))
      && exists i :: 0 <= i && i + |t| <= |s| && s[i..i + |t|] == t
           && WhitespaceBetween(s, 0, i) && WhitespaceBetween(s, i + |t|, |s|)
  {
    var lo, hi := LeadingWhitespace(s), TrailingWhitespaceStart(s);
    if lo < hi {
      assert s[lo..hi][0] == s[lo] && s[lo..hi][hi - lo - 1] == s[hi - 1];
      assert s[lo..lo + (hi - lo)] == Trim(s);
    } else {
      // the leading run is the whole string
      assert WhitespaceBetween(s, 0, 0) && s[0..0] == [];
    }
  }

  /** Trimming leaves nothing exactly when the string is all whitespace. */
  lemma TrimEmptyIffAllWhitespace(s: string)
    ensures Trim(s) == [] <==> AllWhitespace(s)
  {
    var lo, hi := LeadingWhitespace(s), TrailingWhitespaceStart(s);
    if lo < hi {
      assert !IsJsWhitespace(s[lo]);
    }
  }

  /** Trimming twice is trimming once. */
  lemma TrimIdempotent(s: string)
    ensures Trim(Trim(s)) == Trim(s)
  {
    var t := Trim(s);
    TrimCharacterization(s);
    if t != [] {
      assert LeadingWhitespace(t) == 0;
      assert TrailingWhitespaceStart(t) == |t|;
      assert t[0..|t|] == t;
    }
  }

  /**
   * Line 251: `window.location.search.slice(1).trim() || "241584"`; an empty
   * trimmed id is falsy and falls back to the default petition.
   */
  function PetitionId(search: string): (id: string)
    ensures id != []
    ensures AllWhitespace(DropFirst(search)) ==> id == DefaultPetition
    ensures !AllWhitespace(DropFirst(search)) ==> id == Trim(DropFirst(search))
  {
    var t := Trim(DropFirst(search));
    TrimEmptyIffAllWhitespace(DropFirst(search));
    if t == [] then DefaultPetition else t
  }

  /**
   * Unless everything after the `?` is whitespace, the petition id is a
   * stretch of the query string, after its first character, that neither
   * starts nor ends with whitespace and has only whitespace around it.
   */
  lemma PetitionIdFromQuery(search: string)
    requires !AllWhitespace(DropFirst(search))
    ensures var id, q := PetitionId(search), DropFirst(search);
      && !IsJsWhitespace(id[0]) && !IsJsWhitespace(id[|id| - 1])
      && exists i :: 0 <= i && i + |id| <= |q| && q[i..i + |id|] == id
           && WhitespaceBetween(q, 0, i) && WhitespaceBetween(q, i + |id|, |q|)
  {
    TrimCharacterization(DropFirst(search));
  }

  /** ASCII-only case folding, as a non-Unicode `i` regular expression does for these letters. */
  function AsciiLower(c: char): char {
    if 'A' <= c <= 'Z' then (c as int + 32) as char else c
  }

  /** `s` ends in `.json`, letters in any case. */
  predicate HasJsonSuffix(s: string) {
    && |s| >= 5
    && forall i :: 0 <= i < 5 ==> AsciiLower(s[|s| - 5 + i]) == ".json"[i]
  }

  /**
   * Line 98: `self.replace(/\.json$/gi, "")`. The link is the URL with a
   * final `.json` (any case) cut off; a URL without that ending is kept.
   */
  function SignLink(self: string): (link: string)
    ensures |link| <= |self| && link == self[..|link|]
    ensures HasJsonSuffix(self) ==> |link| == |self| - 5
    ensures !HasJsonSuffix(self) ==> link == self
  {
    if HasJsonSuffix(self) then self[..|self| - 5] else self
  }

  /** Appending `.json` in any letter case and making the link gives back the page URL. */
  lemma SignLinkStripsJson(page: string, ext: string)
    requires |ext| == 5 && forall i :: 0 <= i < 5 ==> AsciiLower(ext[i]) == ".json"[i]
    ensures SignLink(page + ext) == page
  {
    var s := page + ext;
    forall i | 0 <= i < 5 ensures AsciiLower(s[|s| - 5 + i]) == ".json"[i] {
      assert s[|s| - 5 + i] == ext[i];
    }
    assert s[..|s| - 5] == page;
  }

  /** Only one `.json` goes: the link of `x.json.json` is `x.json`. */
  lemma SignLinkStripsOnce(page: string)
    ensures SignLink(page + ".json" + ".json") == page + ".json"
  {
    SignLinkStripsJson(page + ".json", ".json");
  }
}

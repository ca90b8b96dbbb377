# Petition hexmap: the data pipeline, in Dafny

This project models the data pipeline at the top of `drawMap` in `lib/map.js`. That function draws a hex map of UK parliamentary constituencies for one parliamentary petition. It also draws a bar chart of the 50 constituencies with the most and the 50 with the fewest signatures per head, with bar height showing the signature count and colour showing the ratio. The pipeline has six parts:

- **Join.** The petition's `signatures_by_constituency` records are written into a lookup, `signaturesCount`, keyed by `ons_code`. A later record overwrites an earlier record with the same code.
- **Ratio.** `calc_perc_pop` divides a record's `signature_count` by the population `p` of its constituency in the hex grid's `hexes` table. `calc_perc_pop_from_hex` does the same for a hex. It returns 0 when the petition has no record for that hex's code.
- **Rank.** The records are sorted in place, highest ratio first. The comparator returns 0 on ties, and `Array.prototype.sort` is stable.
- **Select.** The bar chart shows `slice(0, 50)` of the ranking followed by `slice(-50)`.
- **Maxima.** `maxSignatures` and `maxPop` are `reduce` folds seeded with 0.
- **Strings.** The petition id comes from the page's query string. The "sign this petition" link is `links.self` with a final `.json` removed.

Files, one module each:

- `types.dfy`: the records and the hex table.
- `join.dfy`: the lookup.
- `ratio.dfy`: the ratios and the comparator.
- `rank.dfy`: the stable sort. It has a functional specification and an in-place insertion sort over an `array`.
- `selection.dfy`: JavaScript `slice` and the bar selection.
- `maxima.dfy`: the two folds.
- `strings.dfy`: `trim`, the petition id and the sign link.
- `pipeline.dfy`: the steps in the source's order, on one array.

Ratios are Dafny `real`s, that is, exact rationals. Every record must have a code that is a key of `hexes`, and that constituency's population must be positive. The source has no other behaviour in those cases: line 22 throws on a missing code, and a zero population gives `Infinity` or `NaN`.

The sort's specification is `Rank.SortByPercPop`, which inserts the records one by one with `Rank.Insert`. The lemmas in the table state its properties. It orders records by `PercPopKey`. That is `calc_perc_pop` for a record that meets these preconditions and 0 otherwise. The sorting methods only accept records that meet them, so the value 0 is never used.

## Model

| member | source | states |
|---|---|---|
| `Join.BuildSignaturesCount` | lib/map.js:14-17 | The reduce loop builds a lookup whose keys are exactly the records' codes. Each key holds the last record with that code. The result equals the left fold `SignaturesCount`. |
| `Join.SignaturesCount` | lib/map.js:14-17 | The reference left fold: every entry is filed under its own record's code, and the record written last is what its code looks up. |
| `Join.SignaturesCountKeys` | lib/map.js:14-17 | Lookup keys = set of codes in the list. |
| `Join.LastWriteIndex` | lib/map.js:14-17 | For any key of the lookup, there is a position holding the last record with that code, and that record is what the key looks up. |
| `Join.SignaturesCountLastWins` | lib/map.js:14-17 | Lookup keys = set of codes in the list. Each key maps to the last record carrying it, because later writes overwrite earlier ones. |
| `Join.LastWithCodeIsLookedUp` | lib/map.js:14-17 | The last record with a given code is what the lookup returns for that code. |
| `Join.CodesSnoc` | lib/map.js:14-17 | Appending a record adds exactly its code to the set of codes. |
| `Ratio.CalcPercPop` | lib/map.js:21-23 | `calc_perc_pop` is never negative. |
| `Ratio.CalcPercPopMeaning` | lib/map.js:21-23 | Multiplied by the population, the ratio gives back the signature count. It is 0 exactly when the count is 0. |
| `Ratio.CalcPercPopFromHex` | lib/map.js:25-30 | The result is 0 when the hex's code has no record. Otherwise it is that record's count over the hex's population. |
| `Ratio.HexRatioMatchesRecordRatio` | lib/map.js:14-30 | A hex's ratio equals `calc_perc_pop` of the last record with its code, or 0 when there is no such record. Any code in the lookup has a positive population. |
| `Ratio.RatioGreaterCrossMultiplied` | lib/map.js:33-38 | For positive populations, `x/p > y/q` holds exactly when `x*q > y*p`. |
| `Ratio.Compare` | lib/map.js:33-38 | The comparator returns -1, 1 or 0 exactly as integer cross-multiplication of counts and populations says greater, smaller or equal. |
| `Rank.CompareMatchesKey` | lib/map.js:33-38 | On records that meet the preconditions, the comparator puts `a` after `b` exactly when `a`'s ratio is smaller. It ties exactly on equal ratios. |
| `Rank.SortSignatures` | lib/map.js:32-40 | Sorting the array in place leaves exactly `SortByPercPop` of its old contents. |
| `Rank.ShiftRight` | lib/map.js:32-40 | Scanning from the right, one insertion pass moves the records that the comparator puts after the key one place right. Every moved record has a smaller ratio than the key. The record left of the returned gap does not. The gap cell still holds its old record, and the rest of the array is untouched. |
| `Rank.InsertAt` | lib/map.js:32-40 | Inserting a record puts it right after the last record whose ratio is at least its own. The smaller-ratio run at the end stays after it. |
| `Rank.InsertNext` | lib/map.js:32-40 | One insertion pass turns the prefix `a[..i+1]` into the sorted prefix with `a[i]` inserted. It leaves the rest of the array unchanged. |
| `Rank.SortByPercPopPermutes` | lib/map.js:32-40 | The sorted order is a permutation of the input: multisets are equal. |
| `Rank.SortByPercPopSorted` | lib/map.js:32-40 | The sorted order is non-increasing by ratio. |
| `Rank.SortByPercPopStable` | lib/map.js:32-40 | For every ratio value, the records with that ratio appear in the same relative order as in the input. |
| `Rank.StableSortIsUnique` | lib/map.js:32-40 | Any arrangement that is non-increasing by ratio and keeps every tie class in input order equals `SortByPercPop`. So every stable sort with this comparator gives the same array. |
| `Rank.SortedTiesDetermineOrder` | lib/map.js:32-40 | Two arrangements that are both sorted and agree on every tie class are equal. |
| `Rank.InsertPermutes` | lib/map.js:32-40 | One insertion step adds exactly the inserted record. |
| `Rank.InsertSorted` | lib/map.js:32-40 | One insertion step keeps a sorted sequence sorted. |
| `Rank.InsertWithRatio` | lib/map.js:32-40 | One insertion step appends the record to the end of its own tie class. Other tie classes are untouched. |
| `Selection.SliceBound` | lib/map.js:44-46 | A `slice` bound is read as JavaScript does. A bound in `[0, len]` is kept. A negative bound no further back than `-len` counts back from the end. Larger bounds clamp to `len`, and bounds before `-len` clamp to 0. |
| `Selection.Slice` | lib/map.js:44-46 | `slice(begin, end)` has length `max(e - b, 0)` for the clamped bounds `b` and `e`. Element `i` is the input's element `b + i`. |
| `Selection.SliceFrom` | lib/map.js:46 | `slice(begin)` is the suffix from the clamped bound. |
| `Selection.SelectConstituencies` | lib/map.js:42-46 | With `h = min(50, n)`, the selection has `2*h` records. They are the first `h` ranked records in order, then the last `h` in order. |
| `Selection.SelectionHalvesDisjoint` | lib/map.js:42-46 | From 100 records on, the selection is the first 50 ranked records followed by the last 50, and these stretches do not overlap (`50 <= n - 50`). The selection is therefore a sub-multiset of the ranking. |
| `Selection.SelectionSmall` | lib/map.js:42-46 | Up to 50 records, each half is the whole ranking, so the selection is the ranking twice. |
| `Selection.SelectionFromRanking` | lib/map.js:44-46 | Every selected record is one of the ranked records. |
| `Rank.SortedExtremes` | lib/map.js:32-40 | The first ranked record has the highest ratio of all the records, and the last has the lowest. Both are input records, at the returned positions. |
| `Pipeline.SelectionExtremes` | lib/map.js:32-46 | For a non-empty petition, the first bar is a record with the highest ratio of all records. The last bar is a record with the lowest. |
| `Maxima.MaxReduce` | lib/map.js:48-56 | The fold `(m, x) => m > x ? m : x` is at least the seed and every element. It equals the seed or some element. |
| `Maxima.MaxSignatures` | lib/map.js:48-51 | `maxSignatures` is at least 0 and at least every record's count. It equals some record's count, or is 0 for no records. |
| `Maxima.MaxSignaturesOrderIndependent` | lib/map.js:32-51 | Permuting the records does not change `maxSignatures`. So reading it from the array after the in-place sort is harmless. |
| `Maxima.MaxPop` | lib/map.js:53-56 | `maxPop` is at least 0 and at least every listed population. It equals one of them, or is 0 for an empty list. |
| `Maxima.MaxPopOfTable` | lib/map.js:53-56 | In whatever order `Object.values` lists the table, `maxPop` is at least every hex's `p`. It equals some hex's `p`, or is 0 for an empty table. |
| `Pipeline.DrawMapData` | lib/map.js:12-56 | The lookup is built from the records as they arrive. The array ends up sorted in place, and the selection is taken from it. `maxSignatures` is the maximum of the original records. `maxPop` is the fold over `Object.values` of the same table the ratios read. It is at least every hex's `p`, equals one of them, and is 0 for an empty table. |
| `Strings.PetitionId` | lib/map.js:251 | The id is never empty. It is `"241584"` when everything after the first character is whitespace. Otherwise it is that remainder trimmed. |
| `Strings.PetitionIdFromQuery` | lib/map.js:251 | A non-default id does not start or end with whitespace. It occurs in the query string after the first character, with only whitespace around it. |
| `Strings.Trim` | lib/map.js:251 | `trim` never lengthens its input. Its result is empty, or starts and ends with a non-whitespace character. |
| `Strings.TrimCharacterization` | lib/map.js:251 | `trim` returns a stretch of its input that has only whitespace around it and neither starts nor ends with whitespace. |
| `Strings.TrimEmptyIffAllWhitespace` | lib/map.js:251 | `trim` returns an empty string exactly when the input is all whitespace. |
| `Strings.TrimIdempotent` | lib/map.js:251 | Trimming twice is trimming once. |
| `Strings.LeadingWhitespace` | lib/map.js:251 | Counts the whitespace run at the start: every counted character is whitespace, and the next one is not. |
| `Strings.TrailingWhitespaceStart` | lib/map.js:251 | Finds where the whitespace run at the end starts: every character from there is whitespace, and the one before is not. |
| `Strings.SignLink` | lib/map.js:98 | The link is a prefix of `links.self`. It is 5 characters shorter when `links.self` ends in `.json` in any letter case, and otherwise equal to it. |
| `Strings.SignLinkStripsJson` | lib/map.js:98 | Appending `.json` in any letter case to a page URL and then making the link gives back the page URL. |
| `Strings.SignLinkStripsOnce` | lib/map.js:98 | Only one suffix goes: the link of `x.json.json` is `x.json`. |

## Left out

- D3, DOM and SVG construction (lib/map.js:58-248): the message panel, the hex polygons, the bars, the separator line and the top/bottom labels. This is presentation built through a library that is not part of this model.
- The scales (lib/map.js:58-71): `scaleSequential` with Viridis, `scaleBand` and `scaleLinear`. They compute floating-point pixel and colour values in library code. The colour domain's top, `maxSignatures / maxPop`, is not an upper bound on every ratio, and nothing here claims it is.
- Mouse handlers and cross-highlighting through `dispatch` (lib/map.js:124-184, 243-248). These are event-driven DOM updates.
- `d3.renderHexJSON` geometry (lib/map.js:112). A hex is given here by its key and its table entry.
- `toLocaleString` formatting of counts and percentages. It depends on the locale and on floating point.
- Fetching the data and `Promise.all` (lib/map.js:254-257). These are I/O. `window.location.search` and `links.self` are parameters.
- Floating point: ratios are exact rationals. Two ratios that differ exactly but round to the same double would tie in JavaScript and not here. The stable sort would then keep input order for that pair. The reverse cannot happen: exactly equal ratios give the same double, and because correctly rounded division is monotone, a strict order can only become a tie, never a reversal. With constituency-sized counts and populations, the two ratios' cross-products stay far below 2^52, so in practice no such tie arises either.
- Sort algorithm: the model sorts by stable insertion sort, and the engine's algorithm is not specified. `Rank.StableSortIsUnique` shows that every stable sort with this comparator gives the same order.
- The lookup: it is modelled as a Dafny `map`, while the source builds it on the object literal `{}` at line 17, which inherits `Object.prototype`. Codes that name `Object.prototype` properties (`toString`, `constructor`, `__proto__`, ...) are assumed not to occur. For such a code, line 26 would find an inherited value instead of `undefined`, and line 15 would replace the prototype for `__proto__`. ONS codes never take these forms.
- Records whose code is missing from `hexes`, and zero populations on codes that have records: these are excluded by preconditions. Line 22 throws on a missing code, and a zero population makes the ratio `NaN` or `Infinity`. Unmatched records are not skipped, and no ratio is forced to 0.
- The colour domain's top, `maxSignatures / maxPop` (line 60), is used unrounded. Each side of the selection takes `100 / 2 = 50` records (lines 42-46).
- Iteration order of `Object.values(hexes)`: `Maxima.MaxPop` takes the values in a given order. `Maxima.MaxPopOfTable` shows the result does not depend on that order.

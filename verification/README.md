# Athens delivery survey: persona block chooser

The survey shows each respondent one of six "persona blocks". A persona block
is a group of discrete-choice rows from a static experimental design table.
The chooser works in four steps:

1. It reads the stored preferences (`maxFee`, `maxWalk`, `minCO2`, `maxDay`,
   `mode`). Falsy fields are replaced by defaults through `||`.
2. It builds a key string from the five fields, with no separators.
3. It hashes the key with a Java-style `hashCode`: each step wraps the
   accumulator to a signed 32-bit integer. It maps the hash to a block id
   with JavaScript's `%` plus 1.
4. It keeps the design rows whose `BlockID` equals that id.

This project models the chooser and the design table as pure Dafny functions
and proves the following:

- the int32 fold and its equivalence to Java's polynomial hash;
- the exact range of the block id, including where the code's `// 1-6`
  comment is wrong;
- that the filter is correct;
- the structural invariants of the table.

Modules:

- `JsNumber` (`js_number.dfy`): the JavaScript integer semantics the chooser
  relies on. It covers ToInt32, `<<`, `&` on 32-bit patterns, the truncating
  `%`, and the decimal rendering of non-negative integers.
- `JsArray` (`js_array.dfy`): `Array.prototype.filter` and its order and
  multiplicity guarantees.
- `PersonaBlocks` (`persona_blocks.dfy`): the `DesignRow` record, the shipped
  rows, and the invariants the table header claims.
- `Chooser` (`chooser.dfy`): preferences, the key, the hash, the block id
  (as written and corrected), the filter, and the resulting assignment.

The code's comments (chooser.js:1 and chooser.js:9) promise a block id in
1..6. Line 9 computes it with JavaScript's truncating `%`, which is negative
for a negative hash not divisible by 6. The model follows the code (`Chooser.Assign`) and adds
the intended variant (`Chooser.AssignCorrected`) beside it. See "Findings".

## Model

| member | source | states |
|---|---|---|
| JsNumber.ToInt32 | chooser.js:5 | The `a&a` truncation target is a signed 32-bit integer with the same low 32 bits as its input |
| JsNumber.ToInt32Congruent | chooser.js:5 | Two integers truncate to the same int32 exactly when they agree modulo 2^32 (both directions) |
| JsNumber.ShiftLeft | chooser.js:5 | `a<<n` is an int32 congruent modulo 2^32 to a·2^(n mod 32) |
| JsNumber.BitAnd | chooser.js:5 | `x & y` and-s the two 32-bit patterns and always reads back as an int32 |
| JsNumber.BitAndSelf | chooser.js:5 | `a&a` is ToInt32(a): and-ing a 32-bit pattern with itself only truncates |
| JsNumber.TruncRem | chooser.js:9 | `a % d` has the dividend's sign, magnitude below abs(d), and differs from a by a multiple of d |
| JsNumber.TruncRemVersusEuclidean | chooser.js:9 | The truncating remainder equals the Euclidean one for a non-negative or divisible dividend, and is exactly d less otherwise |
| JsNumber.NatToDecimal | chooser.js:8 | A template segment `${n}` is a canonical decimal numeral that reads back as n |
| JsNumber.NatToDecimalOfValue | chooser.js:8 | Every canonical numeral is the rendering of its value, the converse round trip |
| JsArray.Filter | chooser.js:10 | `filter` keeps a value exactly when it is in the array and passes the test; the result is no longer than the input |
| JsArray.FilterIsSubsequence | chooser.js:10 | `filter` keeps the surviving elements in their original order |
| JsArray.FilterMultiplicity | chooser.js:10 | `filter` keeps every occurrence of a passing value and none of a failing one |
| JsArray.FilterAppend | chooser.js:10 | Filtering a concatenation is concatenating the filtered parts |
| JsArray.FilterNarrowing | chooser.js:10 | Filtering by a narrower test after a wider one equals filtering by the narrower test; with equal tests, filtering is idempotent |
| PersonaBlocks.TableIdsInRange | blocks/persona_blocks.js:2-9 | Every shipped row has BlockID in 1..6, Set in 1..6 and Alt in 1..3 |
| PersonaBlocks.TableAttributesInRange | blocks/persona_blocks.js:4-9 | Cost, Walk, CO2save, Resched and Noise are non-negative and Reliability is a percentage |
| PersonaBlocks.TableBaselines | blocks/persona_blocks.js:4-9 | Alt 1 of every set has Cost, Walk, CO2save, Noise and ModeFlag all 0 |
| PersonaBlocks.TableModeFlagIsAltMinusOne | blocks/persona_blocks.js:4-9 | In every shipped row ModeFlag equals Alt − 1 |
| PersonaBlocks.TableUniqueIds | blocks/persona_blocks.js:2-9 | No two shipped rows share a (BlockID, Set, Alt) triple |
| PersonaBlocks.TableCompleteSets | blocks/persona_blocks.js:2-9 | Every set present has exactly three rows, Alt 1, 2, 3 in that order |
| PersonaBlocks.TableWellFormed | blocks/persona_blocks.js:2-9 | The shipped table has ids in range, attributes in range, all-zero Alt-1 baselines, unique (BlockID, Set, Alt) triples and complete sets |
| PersonaBlocks.OneBlockAtMost18 | blocks/persona_blocks.js:2 | Rows of one block with ids in range and no repeated (BlockID, Set, Alt) number at most 6 × 3 = 18 |
| PersonaBlocks.TableLayout | blocks/persona_blocks.js:3-9 | `PERSONA_BLOCKS` as shipped: all six rows are in block 1, the first three in set 1 and the last three in set 2 |
| PersonaBlocks.TableOnlyBlockOne | blocks/persona_blocks.js:3-13 | Every shipped row belongs to block 1; blocks 2 to 6 are absent |
| Chooser.Or | chooser.js:8 | JavaScript's logical or of a field and its default yields the default or the stored value, and yields 0 only when the default is 0 |
| Chooser.Segment | chooser.js:8 | A template segment is a canonical decimal numeral reading back as the field's value or, when that is falsy, its default |
| Chooser.Key | chooser.js:8 | The key holds only decimal digits and is at least five characters long, one or more per field |
| Chooser.KeyParts | chooser.js:8 | The key is five canonical numerals in template order, reading back as maxFee, maxWalk, minCO2, maxDay (default 0) and mode (default 3) |
| Chooser.SegmentValue | chooser.js:8 | Each key segment reads back as the field's value when truthy and as its default (0, or 3 for mode) otherwise |
| Chooser.KeyOfFalsyPrefs | chooser.js:8 | Preferences whose fields are all missing or 0 give the key "00003" |
| Chooser.ModeZeroIsMissingMode | chooser.js:8 | `mode: 0` gives the same key as a missing mode and as `mode: 3` |
| Chooser.KeyCollision | chooser.js:8 | With no separators, distinct preferences (fee 1, walk 23) and (fee 12, walk 3) share the key "123003" |
| Chooser.HashStep | chooser.js:5 | One reduce step always leaves an int32 in the accumulator |
| Chooser.HashStepIsMulAdd | chooser.js:5 | One step `((a<<5)-a)+c` then `&` is a·31 + c wrapped to int32 |
| Chooser.HashFold | chooser.js:5 | The reduce yields an int32 whenever it takes a step or starts from one |
| Chooser.HashCode | chooser.js:4-6 | `hashCode` is an int32, and `hashCode("")` is 0 |
| Chooser.HashFoldSnoc | chooser.js:5 | Appending a character applies exactly one more step to the fold |
| Chooser.HashCodeSnoc | chooser.js:4-6 | `hashCode(s + c)` is one step applied to `hashCode(s)`, so the hash is a left fold |
| Chooser.HashCodeIsPolynomial | chooser.js:4-6 | `hashCode(s)` is Java's base-31 polynomial hash of s wrapped once to int32 |
| Chooser.ComputeHash | chooser.js:4-6 | The reduce as a loop computes `hashCode` and the wrapped polynomial |
| Chooser.DefaultKeyHash | chooser.js:4-6 | `hashCode("00003")` is 45806643 |
| Chooser.NegativeHashKey | chooser.js:4-6 | `hashCode("2100001")` wraps to the negative value -1420821166 |
| Chooser.BlockIdOf | chooser.js:9 | The block id as written lies in -4..6, is at least 1 for a non-negative hash, and is congruent to hash + 1 modulo 6 |
| Chooser.BlockIdInRangeIff | chooser.js:9 | The block id is in the commented range 1..6 exactly when the hash is non-negative or divisible by 6 |
| Chooser.BlockIdOfMinusOne | chooser.js:9 | A hash of -1 gives block id 0 |
| Chooser.CorrectedBlockId | chooser.js:9 | `((h % 6) + 6) % 6 + 1` lies in 1..6, is the Euclidean remainder plus 1, and agrees with the as-written id wherever that one is in range |
| Chooser.BlockRows | chooser.js:10 | A row is in `currentBlock` exactly when it is a table row with the chosen BlockID |
| Chooser.BlockRowsExact | chooser.js:10 | `currentBlock` is the subsequence of the table holding every row of the block as often as the table does, and no other row |
| Chooser.BlockRowsOfMissingBlock | chooser.js:10 | A block with no rows in the table yields an empty `currentBlock`, not an error |
| Chooser.ShippedBlockRows | chooser.js:10 | With the shipped table, block 1 yields the whole table and any other block id yields no rows |
| Chooser.BlockRowsUnique | chooser.js:10 | The rows of a block keep the table's uniqueness of (BlockID, Set, Alt) |
| Chooser.BlockRowsWellFormed | chooser.js:10 | The rows of a block of a well-formed table are themselves a well-formed table |
| Chooser.BlockAtMost18 | blocks/persona_blocks.js:1-2 | In any table whose rows have BlockID 1..6, Set 1..6, Alt 1..3 and no repeated (BlockID, Set, Alt), every block yields at most 18 rows, never the 36 the header announces |
| Chooser.Assign | chooser.js:8-10 | As written, the block id lies in -4..6, is congruent to hash + 1 modulo 6, and a row is handed out exactly when it is a table row of that block |
| Chooser.AssignCorrected | chooser.js:8-10 | With the corrected remainder, the block id lies in 1..6, is congruent to hash + 1 modulo 6, and a row is handed out exactly when it is a table row of that block |
| Chooser.AssignCorrectedAgrees | chooser.js:9 | The corrected chooser gives the as-written result exactly when the as-written block id is in 1..6 |
| Chooser.DefaultsAreImplicit | chooser.js:8 | `{}` and `{maxFee:0, maxWalk:0, minCO2:0, maxDay:0, mode:3}` give the same block id and rows |
| Chooser.EmptyStoreAssignment | chooser.js:2-10 | With an empty store the chooser picks block 4, and with the shipped table that block has no rows |
| Chooser.NegativeHashAssignment | chooser.js:8-10 | Preferences {maxFee: 2, maxWalk: 100, mode: 1} are assigned block -3 with no rows |
| Chooser.NegativeHashCorrectedAssignment | chooser.js:8-10 | The corrected chooser assigns the same preferences block 3 |

## Left out

- Reading the preferences from `localStorage` and `JSON.parse` (chooser.js:2) is browser I/O. The preferences are an input record. `Chooser.NoPrefs` stands for the `{}` fallback.
- The `window.currentBlock` global (chooser.js:10) is modelled as the `rows` field of the returned `Assignment`.
- The `gtag` analytics event and the `console.log` call (chooser.js:13-14) are external side effects.
- Preference values other than missing fields and non-negative integers up to 2^53 (`JsNumber.SafeNat`) are not modelled. This covers fractional or negative numbers, numbers above 2^53, strings, booleans, `null` and `NaN`. Their rendering in the template is JavaScript float formatting.
- Characters are treated as their code values. Splitting a string outside the Basic Multilingual Plane into UTF-16 code units is not modelled. The key holds only ASCII digits, so the hash of every key the chooser builds is unaffected.
- The double-precision arithmetic in the hash step is modelled as exact integer arithmetic. Every intermediate value stays below 2^33 in magnitude, so nothing is rounded.
- Blocks 2 to 6 and the download link (blocks/persona_blocks.js:10-12) are missing data, not logic. Block 1 is incomplete as well: only its sets 1 and 2 of six are present. The model's table holds the six rows that are present.
- PersonaBlocks.TableWellFormed: does not state two claims of the table's header. "36 rows each" (blocks/persona_blocks.js:1) and "full 216 rows" (line 10) cannot hold together with unique (BlockID, Set, Alt) triples over Set 1..6 and Alt 1..3 (line 2), which leave 18 slots per block. `Chooser.BlockAtMost18` proves that bound. "Levels inside user ceilings" (line 2) is not modelled, because the chooser never compares a row with the preferences: they only feed the hash.
- `Cost` is an exact Dafny `real`, so 0.5 is represented exactly.
- Determinism needs no lemma: every member is a pure function of its inputs, with no seed, clock or state.

## Findings

| source | as written | input that shows it | evidently intended | confidence | as-written member | corrected member |
|---|---|---|---|---|---|---|
| chooser.js:9 | `(hashCode(key) % 6) + 1` with JavaScript's truncating `%`, which gives an id in -4..6 | preferences {maxFee: 2, maxWalk: 100, mode: 1}: key "2100001", hash -1420821166, block id -3, no rows | a block id in 1..6, as the comment on the same line says | not executed | Chooser.NegativeHashAssignment | Chooser.AssignCorrected |

The as-written block id is `Chooser.BlockIdOf`. `Chooser.BlockIdInRangeIff` states exactly which hashes it handles badly. The corrected id is `Chooser.CorrectedBlockId`, which applies `((h % 6) + 6) % 6 + 1` to the same truncating `%`. `Chooser.AssignCorrected` uses the corrected id. `Chooser.AssignCorrectedAgrees` proves the two choosers agree on every input whose as-written id is already in range.

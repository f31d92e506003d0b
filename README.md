# Zigzag CipherLab, modelled in Dafny

Zigzag CipherLab is a browser page for a letter-to-coordinate cipher. The
key is a string of letters `A`-`Z`, and each key position is a vertical
column at x = 40 + 40·i. Encryption plots each plaintext letter found in
the key as a point on a column holding that letter. Rows go downwards at
y = 100 + 24·row. A letter that occurs more than once in the key gets a
random one of its columns. That choice is remembered per plaintext
position, so redrawing the same text does not jump. Decryption parses
`x,y` pairs and sorts them by y. Each point then takes the key letter of
the nearest column, written in lower case. Both directions can also be
played back one step per timer tick.

The project models the logic of `script.js`:

- `Text`: ASCII character classes and case mapping, and the A-Z alphabet.
- `KeyModel`: the key operations.
  - `normalizeKey`.
  - `keyStats`, with its counting loop.
  - `findAllIndices`.
  - The Fisher–Yates shuffle of the key.
- `Layout`: `colX` and `rowY` over exact reals.
- `Decoder`: the decoding operations.
  - `nearestKeyIndex`, the argmin scan.
  - The stable sort by y.
  - `decodeFromPoints`.
  - Their specification functions and lemmas.
- `PointsParser`: `parsePointsInput`.
  - Tokens split on whitespace.
  - The pair grammar `-?\d+(\.\d+)?,-?\d+(\.\d+)?`.
  - The ranges x 0–2000 and y 0–5000, the 1000-point cap and the 50000-character cap.
  - Errors are collected, one per rejected token.
- `ParserExamples`: the input `"10,20 abc 30,40"` worked through.
- `Encoding`: what `plaintextToPoints` computes, stated over values.
  - Which positions are plotted.
  - The cache as `map<(int, char), int>`.
  - The encode→decode round trip.
  - The first-occurrence cache key of the encode playback.
- `Lab`: the global `state` object as class `CipherLab`, with these methods:
  - `setKey` and the key buttons;
  - `plaintextToPoints`, which mutates the index cache;
  - the decode button;
  - the decode playback (play, tick, stop, clear) as an explicit step machine;
  - the encode playback as it is written.

Two things are modelled as choices:

- `Math.random` is an arbitrary choice (`:|`) among the candidate columns, or among the swap partners of the shuffle.
- Timers are a boolean `running` flag plus a `Tick` method that does what one firing of the interval callback does.

Two more notes on the code:

- `parsePointsInput` returns the points of the valid tokens together with the errors of the others. For example, `"10,20 abc 30,40"` gives two points and one error. The all-or-nothing rejection is done by its callers: the decode button and decode play do nothing when there is any error. The model follows that split.
- The encode playback does not reproduce `plaintextToPoints`:
  - Its cache key uses the first occurrence of the letter (`P.indexOf(ch)`) instead of the position.
  - It reuses a cached column without checking it.
  - It does not truncate the plaintext at 10000 characters.

  The model states this behaviour as it is (`Lab.CipherLab.EncTick`, `Encoding.PlaybackSharesEntry`). It does not claim that the playback agrees with the bulk encoder.
- The parser's ranges reject the encoder's own points beyond column 49 (x > 2000) or row 204 (y > 5000), and a 1001st point gives an error, so the decode buttons reject more than 1000 points. Keys of up to 1000 letters and texts of up to 10000 characters are accepted, so encoding, exporting and parsing back works only for short keys and texts (`PointsParser.PlottedPointInRange`).

## Model

| member | source | states |
|---|---|---|
| KeyModel.NormalizeKey | script.js:47-52 | the result holds only A-Z, is at most 1000 long, and is exactly the first min(1000, n) characters of the upper-cased letters of the input |
| KeyModel.NormalizeKeyFixesKeys | script.js:47-52 | a key of at most 1000 A-Z letters is left unchanged by normalisation |
| KeyModel.NormalizeKeyIdempotent | script.js:47-52 | normalising twice is normalising once |
| KeyModel.CountLetters | script.js:55-56 | the `counts` loop yields a map whose keys are exactly the distinct letters, each mapped to its number of occurrences |
| KeyModel.SumDuplicates | script.js:57 | summing count−1 over the letters counted more than once gives length minus the number of distinct letters |
| KeyModel.KeyStats | script.js:53-61 | len is the key length, dup is length minus distinct letters, miss is the number of A-Z letters absent from the key |
| KeyModel.MissingOfNormalizedKey | script.js:58-59 | for a normalised key the missing count is 26 minus the number of distinct letters |
| KeyModel.StatsExample | script.js:53-61 | "AAB" has 1 duplicate and 24 missing letters (its length, 3, is `len` by KeyStats) |
| KeyModel.FindAllIndices | script.js:116-122 | exactly the positions holding the letter, in increasing order; empty iff the letter is not in the key |
| KeyModel.Shuffle | script.js:449-454 | the Fisher–Yates loop returns a permutation of the key (same length, same multiset), whatever the random choices |
| KeyModel.PermutationKeepsNormalized | script.js:449-455 | a permutation of a normalised key is normalised, so the shuffled key is a valid argument for setKey |
| Layout.ColX | script.js:77 | the x of column idx is 40 + 40·idx, so the column index is read back as (x − 40)/40 |
| Layout.RowY | script.js:78 | the y of row r is 100 + 24·r, so the row is read back as (y − 100)/24 |
| Layout.ColumnsApart | script.js:77 | two different key columns are at least 40 apart |
| Layout.RowsIncrease | script.js:78 | a later row has a strictly larger y |
| Decoder.NearestIsLowestArgmin | script.js:355-363 | the scanned index is 0 for an empty key; otherwise it is in range, no column is strictly nearer, and every lower index is strictly farther (lowest index on ties) |
| Decoder.NearestIsUnique | script.js:355-363 | the lowest nearest column is unique, so it is what the scan returns |
| Decoder.NearestOfColumn | script.js:355-363 | the x of column k maps back to k, for every k in range |
| Decoder.NearestKeyIndex | script.js:355-363 | the loop with its strict `<` returns the lowest index of minimal distance |
| Decoder.InsertByY | script.js:368 | inserting a point after every point of lower or equal y gives a permutation of the list plus the point, one longer |
| Decoder.InsertByYSorted | script.js:368 | inserting a point into a list sorted by y gives a list sorted by y |
| Decoder.SortByY | script.js:368 | the result is sorted by y and a permutation of the input |
| Decoder.SortByYStable | script.js:368 | points of equal y keep their input order (a stable sort) |
| Decoder.SortByYOfSorted | script.js:368 | a list already sorted by y is returned unchanged |
| Decoder.SortByYIgnoresOrder | script.js:368 | two permutations of one list with distinct y values sort to the same list |
| Decoder.DecodedEmptyKey | script.js:366-376 | with an empty key every point list decodes to "" |
| Decoder.DecodedLetters | script.js:366-376 | with a non-empty key, one letter per point; the k-th is the lower-cased key letter of the column nearest to the k-th point by ascending y |
| Decoder.DecodedIgnoresOrder | script.js:366-376 | reordering points whose y values are distinct does not change the decoded text |
| Decoder.DecodeColumnsRoundTrip | script.js:366-376 | when the k-th point sits on row k (rows 0, 1, 2, … in order) at the column of key index idx_k, the points decode to the lower-cased letters key[idx_0], key[idx_1], … |
| Decoder.DecodeSortedPrefix | script.js:369-375 | decoding one more point of the sorted list appends exactly that point's nearest key letter, lower-cased |
| Decoder.DecodeFromPoints | script.js:366-376 | the sort-then-append loop returns the decoded text; "" for no points or an empty key |
| PointsParser.TokensOfBlank | script.js:305-307 | an input is blank iff it has no tokens |
| PointsParser.Tokens | script.js:305 | every token is a non-empty run of non-whitespace characters |
| PointsParser.TokensOfWord | script.js:305 | a single word with no whitespace is a single token |
| PointsParser.TokensSkipSpace | script.js:305 | a leading whitespace character (space, tab, LF, VT, FF or CR) does not change the tokens |
| PointsParser.TokensOfWordThen | script.js:305 | a word followed by a whitespace character is the first token, before the tokens of the rest |
| PointsParser.ParseNumber | script.js:316-322 | an accepted number part is non-empty, ends in a digit, holds only digits, dots and a leading minus, and without the minus its value is not negative |
| PointsParser.ParseNumberOfDigits | script.js:316-322 | digits alone read as their whole number, and after a minus sign as its negation |
| PointsParser.ParseNumberOfFraction | script.js:316-322 | digits, a dot and digits read as the whole part plus the fraction digits over the matching power of ten |
| PointsParser.ParseNumberOfNegFraction | script.js:316-322 | a minus sign, digits, a dot and digits read as the negated decimal |
| PointsParser.ParseNumberSound | script.js:316 | an accepted number, after its optional minus sign, starts with a digit and holds at most one dot; with ParseNumber's own contract this is the language `-?\d+(\.\d+)?` |
| PointsParser.ParsePair | script.js:316-322 | an accepted pair token holds exactly one comma |
| PointsParser.ParsePairOfDigits | script.js:316-322 | two unsigned whole numbers around a comma read as that point |
| PointsParser.ParsePairNoComma | script.js:316-320 | a token without a comma is rejected |
| PointsParser.ParsePairSplit | script.js:316-322 | around its first comma a token is a pair iff both sides read as numbers, and the point is those two numbers |
| PointsParser.PlottedPointInRange | script.js:331 | a point the encoder plots on column idx and row r passes the range check iff idx ≤ 49 and r ≤ 204 |
| PointsParser.StepAccepts | script.js:309-336 | below the cap, a well-formed in-range token appends its point and no error |
| PointsParser.StepRejectsMalformed | script.js:309-320 | below the cap, a token that is not a number pair appends one error naming it and its 1-based position, and no point |
| PointsParser.StepKeepsBounds | script.js:309-336 | one step keeps the points at most 1000 and each in range |
| PointsParser.ParseTokensAppend | script.js:309-337 | the result for one more token is one more step applied to the result so far |
| PointsParser.ParseTokensAccounting | script.js:309-337 | every token gives exactly one point or one error |
| PointsParser.ParseTokensBounds | script.js:309-337 | at most 1000 points are accepted, each with 0≤x≤2000 and 0≤y≤5000 |
| PointsParser.ParseTokensOrder | script.js:309-337 | the points are those of the well-formed in-range tokens, in token order, cut at 1000 |
| PointsParser.ParsePointsFacts | script.js:297-340 | over 50000 characters gives one error and no points; blank gives nothing; no errors means one point per token |
| PointsParser.ProcessToken | script.js:309-337 | one call of the `forEach` callback appends what the token-step function says |
| PointsParser.ProcessTokens | script.js:309-337 | the `forEach` loop over all tokens returns exactly the points and errors of the token-step fold |
| PointsParser.ParsePointsInput | script.js:297-340 | the loop over the tokens returns exactly the points and errors of the specification function |
| ParserExamples.ParseExample | script.js:297-340 | "10,20 abc 30,40" gives the points (10,20) and (30,40) and one malformed-token error for "abc" at position 2 |
| ParserExamples.TokensExample | script.js:305 | "10,20 abc 30,40" splits into the three tokens "10,20", "abc", "30,40" |
| ParserExamples.TwoDigitNumber | script.js:316-322 | a two-digit number part reads as its decimal value |
| ParserExamples.FirstPair | script.js:316-322 | "10,20" reads as the point (10,20) |
| ParserExamples.LastPair | script.js:316-322 | "30,40" reads as the point (30,40) |
| ParserExamples.WordIsNoPair | script.js:316-320 | "abc" is not a number pair |
| ParserExamples.ParseTokensMiddleBad | script.js:309-337 | three tokens with a malformed middle one give the two outer points and one error at position 2 |
| Encoding.PreparePlain | script.js:128-130 | the plaintext is cut to 10000 characters and upper-cased |
| Encoding.KeptBefore | script.js:135-140 | the plotted positions are exactly the A-Z letters found in the key, in increasing order |
| Encoding.EncodeDecodeRoundTrip | script.js:125-180 | decoding the encoder's points with the same key gives the lower-cased plotted letters, whichever duplicate columns were chosen |
| Encoding.CompleteKeyRoundTrip | script.js:125-180 | when every plaintext letter is in the key, decoding recovers all A-Z letters of the plaintext, lower-cased |
| Encoding.IndexOf | script.js:626 | `indexOf` returns −1 iff the letter is absent; otherwise it returns the first position holding it |
| Encoding.PlaybackSharesEntry | script.js:626 | in the encode playback, two positions with the same letter share one cache entry, and a repeated letter is never keyed by its own position |
| Encoding.PlaybackColumnDiffers | script.js:626 | with key "AA", text "AXA" and a cache holding column 0 for position 0 and column 1 for position 2, the playback plots column 0 for the last letter where the bulk encoder reuses column 1 |
| Lab.ChooseColumn | script.js:143-158 | a cached column still holding the letter is reused unchanged; otherwise a column holding the letter is chosen and cached |
| Lab.PlacePoints | script.js:131-164 | one point per plotted position in order, the k-th at (colX(idx), rowY(k)) with key[idx] the letter; the cache gains exactly the plotted entries, and valid or unplotted entries are unchanged |
| Lab.PruneCache | script.js:166-177 | the cache keeps exactly the entries whose position holds their letter, with their values |
| Lab.ValidChars | script.js:591-598 | the playback's letter list is the A-Z letters of the upper-cased, untruncated plaintext that occur in the key, in order |
| Lab.PlaybackColumn | script.js:624-634 | a cached column is used as it is, unchecked; otherwise a column holding the letter is chosen and cached under that key; none when the key lacks the letter |
| Lab.CipherLab.constructor | script.js:6-29 | initial state: key A-Z, empty cache, no playback running, and the invariant holds |
| Lab.CipherLab.SetKey | script.js:62-64 | the key is replaced and the cache emptied; the invariant (normalised key, every cached column holds its letter) is kept |
| Lab.CipherLab.ApplyKey | script.js:443-446 | the key becomes the normalised input, and the cache is emptied |
| Lab.CipherLab.ShuffleKey | script.js:447-457 | the key becomes a permutation of the normalised input (or of the current key when the input is empty) |
| Lab.CipherLab.ResetKey | script.js:458-462 | the key is back to A-Z, and the cache is emptied |
| Lab.CipherLab.PlaintextToPoints | script.js:125-180 | the points are as described; the cache afterwards holds the old entries still occurring in the text plus every plotted entry, with valid old columns reused and every new column holding its letter |
| Lab.CipherLab.Encrypt | script.js:209-216 | lastPoints are the encoder's points, the cache invariant is kept, and no surviving entry changes |
| Lab.CipherLab.RedrawIsStable | script.js:143-151 | encoding the same text twice with the same key gives the same points |
| Lab.CipherLab.EncClear | script.js:471-479 | the cache is empty, there are no points, and playback is stopped |
| Lab.CipherLab.DecodeNow | script.js:542-562 | on a parse error nothing changes; with no points the output is ""; otherwise the output is decodeFromPoints of the parsed points |
| Lab.CipherLab.ShowDecoded | script.js:546-561 | what the decode button does with the parser's result: nothing on errors, "" for no points, otherwise the points are kept and the output is the decoded text |
| Lab.CipherLab.PointsEdited | script.js:519-528 | on each edit of the points box, input without errors becomes the decoder's points; input with errors leaves them unchanged |
| Lab.CipherLab.DecPlay | script.js:662-696 | this is a no-op while running or when parsing fails or gives no points; otherwise the points are sorted, the output is cleared, the step is 0 and playback runs |
| Lab.CipherLab.StartDecode | script.js:675-697 | the queue and the kept points become the points sorted by y, the step is 0, the output is empty and playback runs, in sync |
| Lab.CipherLab.DecTick | script.js:697-729 | at the end the timer is cleared; otherwise the step grows by one and exactly the letter decodeFromPoints emits for that sorted point is appended; an output in sync with the queue stays in sync, and once stopped it is the decoding of the whole sorted queue |
| Lab.CipherLab.PlayToEnd | script.js:697-729 | from any state, firing the interval until it clears itself ends with playback stopped; when it was running with the output in sync, the output is the decoding of the whole sorted queue |
| Lab.CipherLab.DecStop | script.js:732-735 | the timer is cleared (idempotent) |
| Lab.CipherLab.DecClear | script.js:532-539 | no points, empty output, playback stopped |
| Lab.CipherLab.DecodeWithPlayback | script.js:662-729 | playing the decode to the end leaves in the output what decodeFromPoints gives for the parsed points |
| Lab.CipherLab.EncPlay | script.js:583-615 | a no-op while running or for empty text (flag, step, captured plaintext, letters and points unchanged); otherwise the step is reset, and playback runs iff some letter can be plotted, over exactly those letters; when it does not start, the captured plaintext, letters and points are unchanged |
| Lab.CipherLab.EncTick | script.js:616-652 | at the end the timer is cleared; otherwise the column comes from the cache entry keyed by the letter's first occurrence, or a fresh column holding the letter is chosen and cached there |
| Lab.CipherLab.EncStop | script.js:655-659 | playback stops and the full encoding is redrawn: the cache keeps exactly the old entries still occurring in the text plus the plotted ones, and no surviving entry changes its column |

## Left out

- All DOM and SVG work is left out because it is presentation: drawing, tabs, accordion, error display, text boxes other than the decoded output, SVG height.
- Clipboard, SVG download, theme and `localStorage` are left out because they are browser APIs.
- The "sync from encryption" handler and the export string (`Math.round` of each coordinate) are not part of this model.
- `setInterval`/`clearInterval` and the 300 ms cadence are left out. A timer is a boolean, and a firing is a call to `Tick`.
- The distribution of `Math.random` is left out. Only "some candidate" is modelled.
- IEEE-754 arithmetic is left out: coordinates, `parseFloat` and `Math.abs` are exact reals. This also drops the `isFinite` rejection in `parsePointsInput` (script.js:324-328), which exact decimals can never reach.
- Unicode is left out: case mapping and `\s` are ASCII only (space and characters 9–13), so non-ASCII `toUpperCase` length changes are not modelled.
- The `typeof` guards cannot be reached with typed arguments.
- Error messages are the `ParseError` kinds with their token and position, not the message strings.
- The redraws inside `setKey` are not modelled. The model does not re-encode the current plaintext when the key changes; `Encrypt` does that when called.
- Lab.CipherLab.EncTick: when the key was replaced during playback and lost the letter, the source caches `undefined` and plots a NaN point. The model only advances the step.
- Lab.CipherLab.DecTick: the output is tied to decodeFromPoints only while the key is unchanged since play (`DecodeInSync`). A key change mid-playback decodes the rest with the new key, as the source does.

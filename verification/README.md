# Measurement normalisation of the OCR measurement logger, in Dafny

The application photographs a display or label, reads the text with OCR and
stores the `(value, unit)` measurements it finds in a `Results` table that
holds each pair at most once. This project models the pure logic in `app.py`
between "the OCR text is known" and "these rows go into the table". It also
models the two small string transformations around it:

- **Edit distance** (`EditDistance`). `levenshtein` is defined as the textbook
  recurrence on lower-cased strings. It is proved to be a metric bounded by
  the lengths. The row-reuse dynamic program the program runs is a method,
  and its loop invariants prove it equal to the recurrence.
- **Unit correction** (`Units`). This covers the tables `VALID_UNITS`,
  `COMMON_MISREADS` and `UNIT_THRESHOLDS`, and `correct_unit`:
  - fold the token (strip, lower-case, `µ`→`u`) and look up one misread;
  - keep the first vocabulary entry whose distance is strictly below the
    running best, which starts at 3;
  - look up one misread on the winner.

  The result is characterised exactly: `None` iff every entry is at distance
  3 or more, otherwise the misread image of the first closest entry. Every
  result is a unit with a range, and every such unit is a fixed point.
- **Numerals** (`Numbers`). `float(raw.replace(",", "."))` is modelled on
  the numerals the pattern can capture, with exact rational values.
- **Pair extraction** (`Extract`). `re.findall(r"(\d+(?:[.,]\d+)?)\s*([a-z/]{1,5})", txt)`
  is modelled as a greedy matcher tried at each position. It is proved to
  agree with every instance of the pattern there, and to fail only where no
  instance exists. On top of it sits a left-to-right scan that resumes after
  each match, proved to yield ordered, non-overlapping matches that leave no
  matchable position uncovered.
- **Classification** (`Pipeline`). The `/ocr` loop parses, corrects and
  range-checks each pair, then inserts it into a store whose
  `UNIQUE ([value], unit)` constraint makes it a set. Each pair is either
  inserted or skipped with the reason the source gives.
- **Payload clean-up** (`Payload`). Before base64 decoding, the `image`
  field goes through these steps: drop the data-URL header, spaces become
  `+`, strip, pad with `=`.
- **Grouping** (`Grouping`). `/analysis-data` folds the rows into a
  dictionary from unit to its values, in row order.

`Text` holds the shared `Option`/`Result` types and the Python `str`
operations used (`lower`, `strip`, `replace`, `startswith`, and the
first-comma split of `split(",", 1)`).

Two consequences of `app.py` that are easy to miss:

- **Every short token is corrected to some unit.** A token of at most two
  characters is at most two edits from `kg`, the first entry, so
  `correct_unit` never rejects it (`Units.ShortTokenCorrected`). One that
  shares no letter with the vocabulary, such as `xq`, becomes `kg`: a pair
  such as `999 xq` is skipped as out of the kilogram range, not as an
  unknown unit (`Units.ExampleTwoLetterToken`,
  `Pipeline.ExampleMisreadOutOfRange`, `Pipeline.ExampleScenario`).
- **The vocabulary is not µ-folded.** Only the token is folded. The
  vocabulary keeps `"µg"`, which a folded token never matches exactly; `"ug"`
  reaches `"µg"` through the misread table instead.

## Model

| member | source | states |
|---|---|---|
| `EditDistance.LevenshteinRows` | app.py:103-122 | the row-reuse program returns the edit distance of the lower-cased strings: 0 when they are equal, the other length when one is empty |
| `EditDistance.NextRow` | app.py:110-121 | one pass of the inner loop turns the table row for `a[..i-1]` into the row for `a[..i]` |
| `EditDistance.DistPrefixStep` | app.py:113-119 | a table cell is the least of the insert, delete and replace candidates computed from its three neighbours |
| `EditDistance.LevenshteinMetric` | app.py:103-122 | the distance is zero exactly on strings equal after lower-casing, is symmetric, obeys the triangle inequality, and lies between the length difference and the longer length |
| `EditDistance.DistBounds` | app.py:103-122 | the edit distance is at least the difference of the lengths and at most the longer length |
| `EditDistance.DistZeroIff` | app.py:105-106 | distance zero holds exactly for equal strings |
| `EditDistance.DistSymmetric` | app.py:103-122 | the edit distance does not depend on argument order |
| `EditDistance.DistTriangle` | app.py:103-122 | the edit distance obeys the triangle inequality |
| `EditDistance.DistDisjoint` | app.py:103-122 | strings with no character in common are as far apart as the longer one is long |
| `Units.ClosestIndex` | app.py:127-131 | the scan finds nothing exactly when every entry is at distance 3 or more; otherwise it finds the first entry of least distance, and that distance is below 3 |
| `Units.FirstClosestUnique` | app.py:128-131 | at most one entry is the first closest, so the strict `<` picks a unique winner |
| `Units.CorrectUnit` | app.py:124-132 | `None` exactly when the folded, once-corrected token is at distance 3 or more from every valid unit; otherwise the misread image of the first closest entry, which is a unit with a range |
| `Units.VocabularyResolves` | app.py:33-67 | every vocabulary entry, after the final misread lookup, is a key of the threshold table |
| `Units.TablesDisjoint` | app.py:41-67 | no unit with a range is itself listed as a misread |
| `Units.ThresholdKeysInVocabulary` | app.py:33-67 | every unit with a range is a vocabulary entry |
| `Units.VocabularyIsThresholdKeys` | app.py:33-67 | the vocabulary after the final lookup is exactly the set of units with a range |
| `Units.MisreadTargetsCanonical` | app.py:41-67 | every misread is corrected to a unit with a range |
| `Units.ExactEntryWins` | app.py:127-131 | a token that is a vocabulary entry selects the first position holding it |
| `Units.CorrectUnitExact` | app.py:124-132 | a token whose corrected form is a vocabulary entry is mapped to that entry's misread image |
| `Units.ThresholdKeysAreFixedPoints` | app.py:124-132 | every unit with a range corrects to itself |
| `Units.ThresholdKeyFixed` | app.py:124-132 | a single unit with a range corrects to itself |
| `Units.MisreadCorrected` | app.py:124-132 | a listed misread that folding leaves alone corrects to its listed target |
| `Units.CorrectUnitIdempotent` | app.py:124-132 | correcting a corrected unit changes nothing |
| `Units.FoldPlain` | app.py:125 | a lower-case token without surrounding whitespace or `µ` is unchanged by folding |
| `Units.ForeignTokenDistances` | app.py:128-131 | a token sharing no letter with the vocabulary is at the longer length from every entry |
| `Units.ExampleUpperCaseKilogram` | app.py:125 | `" KG "` is stripped and lower-cased to `"kg"` |
| `Units.ExampleMicroGram` | app.py:124-132 | `"ug"` becomes `"µg"` |
| `Units.ExampleKilometresPerHour` | app.py:124-132 | `"kmph"` becomes `"km/hr"` |
| `Units.ExampleMilligram` | app.py:124-132 | `"mgm"` becomes `"mg"` |
| `Units.ExampleSeconds` | app.py:124-132 | `"s"` becomes `"sec"` |
| `Units.ExampleUnknownToken` | app.py:124-132 | `"xyz123"` is unknown |
| `Units.ShortTokenCorrected` | app.py:124-132 | a token whose folded, looked-up form has at most two characters is always corrected to some unit: its distance to `kg`, the first entry, is below the starting bound 3 |
| `Units.ExampleTwoLetterToken` | app.py:124-132 | `"xq"` is two edits from `"kg"`, the first entry, and becomes `"kg"` |
| `Numbers.ParseNumber` | app.py:179 | a run of digits reads as its decimal value; every value is non-negative |
| `Numbers.ParseNumberDomain` | app.py:179 | a value is produced exactly for digits optionally followed by a point and more digits |
| `Numbers.ParseSplit` | app.py:179 | a numeral with a point reads as its whole part plus its fraction digits shifted behind the point |
| `Numbers.ParseScaled` | app.py:179 | `ip.fp` reads as the digits `ip fp` divided by ten to the number of fraction digits |
| `Numbers.FractionTrailingZero` | app.py:179 | a trailing zero in the fraction does not change the value |
| `Numbers.DigitsConcat` | app.py:179 | the value of concatenated digit strings is the first shifted by the second's length plus the second |
| `Numbers.NumeralParses` | app.py:169-179 | every numeral the pattern captures parses once `,` is replaced by `.` |
| `Extract.UnitEnd` | app.py:169 | the unit group takes the longest run of `[a-z/]` up to five characters |
| `Extract.MatchAt` | app.py:169 | a match found at a position is an instance of the pattern there |
| `Extract.MatchAtIsPreferred` | app.py:169 | any instance of the pattern at a position has the greedy match's numeral and whitespace, and a unit no longer than its unit |
| `Extract.MatchAtNoneIff` | app.py:169 | the matcher fails at a position exactly when no instance of the pattern starts there |
| `Extract.ScanSound` | app.py:169 | the scan reports only matches found by the matcher, in order, without overlap, at or after its start |
| `Extract.ScanCovers` | app.py:169 | every position where a match starts lies inside some reported match |
| `Extract.PairOf` | app.py:169 | a pair's value is a numeral and its unit is one to five characters from `[a-z/]` |
| `Extract.FindAll` | app.py:169 | every extracted value is a numeral and every unit is one to five characters from `[a-z/]` |
| `Extract.FindAllSound` | app.py:169 | one pair per reported match; the matches come from the matcher, in text order, without overlap, and cover every matchable position |
| `Extract.NoDigitNoPairs` | app.py:169 | text without digits yields no pairs |
| `Extract.ExampleDottedRun` | app.py:169 | `"1.2.3kg"` yields the single pair `("2.3", "kg")` |
| `Extract.ExampleLongUnit` | app.py:169 | `"5 kilograms"` yields `("5", "kilog")` and nothing more |
| `Pipeline.Validate` | app.py:178-194 | an accepted measurement is within the inclusive range of its unit |
| `Pipeline.ValidateIff` | app.py:178-194 | a pair is accepted exactly when it parses, its unit corrects and the value is in range; each rejection names the first failing check |
| `Pipeline.ValidateUnparsable` | app.py:179-209 | a numeral that does not parse is skipped as `invalid number` with the raw numeral and raw unit |
| `Pipeline.ValidateUnknownUnit` | app.py:180-183 | a unit that does not correct is skipped as `unknown unit` with the parsed value and the raw unit |
| `Pipeline.ValidateKnown` | app.py:186-194 | with the value and corrected unit known, the verdict is acceptance in range and an out-of-range skip under the corrected unit otherwise |
| `Pipeline.ExtractedPairsParse` | app.py:177-209 | the `invalid number` branch is never taken for extracted pairs |
| `Pipeline.Step` | app.py:196-207 | a pair is inserted exactly when it is accepted and not yet stored; only an insert changes the store |
| `Pipeline.ProcessStore` | app.py:177-207 | after the loop the store is the old store plus every accepted measurement |
| `Pipeline.OutcomeAt` | app.py:177-209 | each pair's outcome is decided against the old store plus everything accepted before it |
| `Pipeline.InsertedIff` | app.py:177-207 | a verdict is inserted exactly when it accepts a measurement not stored and not accepted earlier |
| `Pipeline.ClassifyInsertedIff` | app.py:177-209 | a pair is inserted exactly when it is accepted, new to the store, and not accepted from an earlier pair; what is inserted is in range |
| `Pipeline.RepeatIsDuplicate` | app.py:196-207 | a repeated accepted measurement, whether or not the two pairs are spelled alike, is skipped the second time as `duplicate value` with the corrected unit |
| `Pipeline.RejectedIsSkipped` | app.py:181-194 | a rejected pair is skipped with the reason the checks gave |
| `Pipeline.SplitCounts` | app.py:174-209 | every outcome lands in exactly one of `inserted` and `skipped` |
| `Pipeline.ProcessSummary` | app.py:174-211 | the lists number as many entries as pairs; inserted measurements are accepted, new to the store and pairwise distinct; the store grows by exactly them |
| `Pipeline.FirstAccepting` | app.py:177-207 | the first pair accepting a measurement is found, and no earlier pair accepts it |
| `Pipeline.Ocr` | app.py:165-213 | no pairs gives `no pairs found` with the store unchanged; otherwise the two lists together have one entry per pair |
| `Pipeline.OcrSaved` | app.py:174-213 | a saved response lists in-range measurements that are new and pairwise distinct, and the table grows by exactly them |
| `Pipeline.ExampleCommaDecimal` | app.py:179 | `"23,5"` reads as 23.5 |
| `Pipeline.ExampleAccepted` | app.py:178-201 | `("23,5", "kg")` is accepted as 23.5 kg |
| `Pipeline.ExampleMisreadOutOfRange` | app.py:178-194 | `("999", "xq")` is skipped as out of the kilogram range 0–100 |
| `Pipeline.ExampleMilligramOutOfRange` | app.py:178-194 | `("1000000", "mg")` is skipped as out of the milligram range 1–1000 |
| `Pipeline.ExampleScenarioText` | app.py:169 | `findall` on "23,5 kg 999 xq 1000000 mg" yields exactly the pairs ("23,5","kg"), ("999","xq"), ("1000000","mg"), in text order |
| `Pipeline.ExampleScenario` | app.py:174-209 | on an empty table the three pairs give one insert and two out-of-range skips, in order, and the table holds 23.5 kg |
| `Pipeline.ExampleRepeat` | app.py:196-207 | the same pair twice is stored once and then reported as a duplicate |
| `Payload.DataUrlBody` | app.py:142-143 | a data URL keeps what follows its first comma and fails without a comma; anything else is kept whole |
| `Payload.Pad` | app.py:146-147 | padding extends by at most three `=` to a multiple of four and leaves an aligned string alone |
| `Payload.PadUnique` | app.py:146-147 | any extension by at most three `=` signs to a multiple of four is the padded string |
| `Payload.Normalize` | app.py:139-147 | `missing image` exactly for an empty field |
| `Payload.NormalizeOutcome` | app.py:139-147 | the clean-up fails exactly on an empty field or a comma-less data URL; otherwise the result has no space, a length that is a multiple of four, and the stripped body as a prefix |
| `Payload.DataUrlStripped` | app.py:142-143 | a data URL loses exactly its header up to and including the first comma |
| `Payload.NormalizeIdempotent` | app.py:142-147 | a non-empty clean result that does not start with the header goes through the clean-up unchanged |
| `Payload.ExampleDataUrl` | app.py:139-147 | `"data:image,ab c"` becomes `"ab+c"` |
| `Payload.ExamplePadding` | app.py:139-147 | `"abcde"` becomes `"abcde==="` |
| `Payload.ExampleHeaderOnly` | app.py:142-143 | a bare `"data:image"` has no comma to split at |
| `Grouping.GroupByUnitRepresents` | app.py:241-244 | one entry per unit present and no other, each listing that unit's values in row order |
| `Grouping.GroupByUnitTotal` | app.py:241-244 | the grouped values number as many as the rows |
| `Grouping.GroupsAscending` | app.py:232-244 | rows read in `ORDER BY unit, value` order give every unit's values in ascending order |

## Left out

- Flask routing, JSON parsing and building, HTTP status codes and the
  catch-all mapping of exceptions to status 500. `PayloadError.NoComma`
  stands for the `IndexError` that mapping turns into an error response.
- OpenCV preprocessing and the Tesseract call. The OCR text is an arbitrary
  input string of `Pipeline.Ocr`.
- `base64.b64decode` and `cv2.imdecode`. They are library calls; only the
  string clean-up before them is modelled.
- Database I/O: connections, table creation, `SELECT`, `DELETE`, commits.
  The table is a set of measurements with the uniqueness rule. An insert
  that fails for any reason other than a uniqueness violation is not
  modelled.
- Concurrent requests: the table is modelled as changing during one `/ocr`
  request only through that request's own inserts. Another request that
  inserts the same pair, or a `/clear-data` that empties the table, while
  the loop runs can change an insert into `duplicate value` or the reverse;
  `Pipeline.InsertedIff`, `Pipeline.ProcessStore` and `Pipeline.OcrSaved`
  hold only for a request that is the table's sole writer.
- Numbers.ParseNumber: models Python's `float` only on digits optionally
  followed by `.` and digits. Those are the only strings the pattern can
  capture. Signs, exponents, underscores, `inf`/`nan` and surrounding
  whitespace are not modelled.
- IEEE-754 doubles: values are exact reals. Rounding at range boundaries,
  float equality in the uniqueness constraint, and overflow to `inf` for
  huge numerals are not modelled. A huge real fails every range check, as
  `inf` does.
- Text.Lower: lower-cases ASCII letters only. Python's `str.lower` folds all
  of Unicode, but the OCR whitelist admits only lower-case ASCII letters,
  digits, `.,/` and `µ`.
- `\d` and `\s` in the pattern are ASCII digits and the `str.isspace` set.
  Python's Unicode digit class is wider.
- Payload.Normalize: takes the `image` field as a string. A falsy JSON
  value (`null`, `false`, `0`, `[]`, `{}`) is answered with `missing image`
  just as `""` is, but the model covers only `""`. A truthy non-string value
  raises at `startswith` and gives status 500.
- The browser scripts (`static/js`) are DOM, camera and chart code with no
  modellable logic.

# airbnb.py table cleaning, in Dafny

`airbnb.py` loads the Airbnb open-data listings into a pandas DataFrame. It
cleans the frame step by step and then reports on it. This project models
the cleaning steps and the top-10/bottom-10 neighbourhood selection, and
proves what each step does to the table.

- **The table** (module `Frames`) is a value: a header (`seq<string>`) and
  rows of cells. A cell is `Text(s)`, `Number(v)` or `Missing`, the three
  kinds of values the script's columns hold. Each statement of the script
  is a function from one table to the next. A statement that can raise
  (`astype(float)` on a non-numeric string, `365 - "abc"`, a missing
  `host_identity_verified` column) returns `None`.
- **The script's `df`** (module `Pipeline`) is the class `Table`, whose
  fields are the header and the rows. Each method performs one statement in
  place and is proved equal to the matching `Frames` function. The
  numeric-coercion `for` loop is a `while` loop with an invariant. A
  statement that raises leaves the table unchanged and reports `false`.
- **Per-name and per-cell transforms** are pure functions:
  - `Text` and `Headers`: the `.str` chain on the header.
  - `Cells`: currency stripping and parsing, `to_numeric(errors="coerce")`, `365 - x`, the two host-label lambdas.
  - `Numbers`: the exact decimal parser behind both float conversions.
  - `Columns`: column pruning.
  - `Dedup`: `drop_duplicates`.
- **`Ranking`** models `nlargest`/`nsmallest` over the per-neighbourhood
  means as repeated first-best selection. It proves the length, the order,
  the split into selected and left-out groups (a permutation), and the
  disjointness of the top ten and the bottom ten.

pandas semantics written out in the model:

- `df[name] = ...` writes every column called `name`, or appends one new
  last column.
- A derived column reads the first column of that name.
- `drop_duplicates()` keeps the first of equal rows (two missing cells are
  equal).
- `nlargest`/`nsmallest` return the best present means and break ties by
  original order (`keep="first"`). With fewer than `n` present means, pandas
  fills the remaining places with groups whose mean is missing; the model
  returns only the present ones (see `Ranking.Present` under "Left out").
- `astype(float)` applies Python's `float()` to each string, and
  `pd.to_numeric` uses pandas' own number parser. Both skip surrounding
  ASCII whitespace (tab, line feed, vertical tab, form feed, carriage return,
  space), so `"$966 "` cleans to 966. They do not skip the separators
  0x1C-0x1F, which `str.strip()` removes from headers.
- `str(x).lower() == "t"` holds exactly for the strings `t`/`T`, never for a
  number or for `nan`.

Two behaviours of the script follow from the model:

- The label written at lines 124-127 is always overwritten at lines
  264-266. In `LabelsOverwritten`, labelling superhosts first makes no
  difference to the final table.
- The modelled cleaning statements (lines 42-127 and 264-266) fail exactly
  when a currency string does not parse, or when `host_identity_verified`
  is absent (`CleanFailure`). Computing `days_booked` after the coercion
  cannot fail. The reporting code that the script runs between line 127 and
  line 264 can raise as well; it is not modelled (see "Left out").

## Model

| member | source | states |
|---|---|---|
| Text.Lower | airbnb.py:44 | every ASCII upper-case letter is lowered, nothing else changes, and the length is kept |
| Text.LowerChar | airbnb.py:44 | an upper-case ASCII letter moves to its lower-case partner and any other character is kept |
| Text.TrimLeft | airbnb.py:45 | the result is a suffix, everything cut was whitespace, and the result does not start with whitespace |
| Text.TrimRight | airbnb.py:45 | the result is a prefix, everything cut was whitespace, and the result does not end with whitespace |
| Text.Trim | airbnb.py:45 | defines trimming of a given set of blank characters from both ends (no contract of its own) |
| Text.Strip | airbnb.py:45 | defines `str.strip()` as trimming `str.isspace` characters (no contract of its own) |
| Text.TrimEnds | airbnb.py:45 | a trimmed string neither starts nor ends with a blank |
| Text.TrimNoUpper | airbnb.py:44-45 | trimming text without upper-case letters leaves none |
| Text.TrimNoOp | airbnb.py:45 | text with no blank at either end is unchanged by trimming |
| Text.TrimKeeps | airbnb.py:45 | a character that is not blank survives trimming |
| Text.TrimSpaceAfter | airbnb.py:90 | when a space is blank, a single trailing space is removed from text that has no blank at either end |
| Text.LowerNoOp | airbnb.py:44 | lower leaves text without upper-case letters unchanged |
| Text.ReplaceChar | airbnb.py:46 | every space becomes `_`, other characters and the length are kept |
| Text.ReplaceAllKeeps | airbnb.py:47 | any character property shared by the text and the replacement holds for the result |
| Text.ReplaceAllEnds | airbnb.py:47 | the replaced text is non-empty and ends with characters of the original or of the replacement |
| Text.ReplaceAllNoOp | airbnb.py:47 | text without the pattern is unchanged by the replacement |
| Text.ReplaceAll | airbnb.py:46-47 | defines literal `str.replace`: a left-to-right scan replacing non-overlapping occurrences (no contract of its own) |
| Text.CopiedPrefix | airbnb.py:47 | a result prefix that cannot start a replacement was copied from the original |
| Headers.NormalizeName | airbnb.py:42-48 | defines the four-step name normalisation in the script's order (no contract of its own; see `NormalizedNameProperties`) |
| Headers.NormalizeHeaders | airbnb.py:42-48 | the header keeps its length and order, and each name is normalised in place |
| Headers.NoMisspellingLeft | airbnb.py:47 | after folding, `neighbourhood` occurs nowhere: the replacement never creates a new occurrence |
| Headers.PreparedChars | airbnb.py:44-46 | after lower, strip and the space replacement, a name has no upper-case letter and no space |
| Headers.PreparedEnds | airbnb.py:44-46 | after lower, strip and the space replacement, a name has no whitespace at either end |
| Headers.PreparedProperties | airbnb.py:44-46 | after lower, strip and the space replacement, a name has no upper-case letter, no space and no whitespace at either end |
| Headers.NormalizedChars | airbnb.py:42-48 | a normalised name has no upper-case letter and no space |
| Headers.NormalizedEnds | airbnb.py:42-48 | a normalised name has no whitespace at either end |
| Headers.NormalizedNameProperties | airbnb.py:42-48 | every normalised name satisfies all four properties, including the absence of `neighbourhood` |
| Headers.NormalizedHeadersProperties | airbnb.py:42-48 | every name of a normalised header is in normalised form |
| Headers.NormalizedNameFixed | airbnb.py:42-48 | normalising a name that is already normalised changes nothing |
| Headers.NormalizeHeadersIdempotent | airbnb.py:42-48 | normalising the header twice is normalising it once |
| Headers.NormalizedHeadersFixed | airbnb.py:42-48 | a header made of normalised names is a fixed point |
| Columns.PresentDrops | airbnb.py:59 | the list comprehension holds exactly the listed names that are present |
| Columns.PresentAmong | airbnb.py:59 | a name is listed exactly when it is a candidate and present |
| Columns.Keep | airbnb.py:59 | dropping never lengthens a header or row |
| Columns.PrunedColumns | airbnb.py:59 | the pruned header is no longer than the original |
| Columns.PrunedRow | airbnb.py:59 | a pruned row is no longer than the original |
| Columns.KeepConcat | airbnb.py:59 | pruning works block by block, so kept entries keep their relative order |
| Columns.KeepMembers | airbnb.py:59 | a name is kept exactly when it was present and is not dropped |
| Columns.KeepWidth | airbnb.py:59 | header and rows are pruned to the same width |
| Columns.KeepAligned | airbnb.py:59 | each kept cell stays under its own column name |
| Columns.PrunedColumnsMembers | airbnb.py:57-59 | none of the four names is left, every other name is kept, and nothing new appears |
| Columns.PruneAbsent | airbnb.py:59 | with none of the four names present nothing is dropped and no error occurs |
| Columns.PresentAmongNone | airbnb.py:59 | no candidate present gives an empty drop list |
| Columns.KeepNothing | airbnb.py:59 | an empty drop list keeps every entry |
| Columns.PruneIdempotent | airbnb.py:57-59 | pruning twice is pruning once |
| Dedup.DropDuplicates | airbnb.py:76 | the result is no longer than the input, every kept row is an input row, and every input row is kept |
| Dedup.FirstIndex | airbnb.py:76 | the first position of a value: it holds the value and no earlier position does |
| Dedup.DropDuplicatesIsScan | airbnb.py:76 | the definition agrees with pandas' front-to-back scan with a set of seen rows |
| Dedup.Scan | airbnb.py:76 | the scan never lengthens its input and never emits a row it has already seen |
| Dedup.ScanAppend | airbnb.py:76 | scanning one more row appends it exactly when it has not been seen |
| Dedup.DropDuplicatesDistinct | airbnb.py:76 | the result has no two equal rows |
| Dedup.DropDuplicatesNoOp | airbnb.py:76 | rows without duplicates are unchanged |
| Dedup.DropDuplicatesIdempotent | airbnb.py:76 | de-duplicating twice is de-duplicating once |
| Dedup.FirstIndexAppend | airbnb.py:76 | appending a row does not move an earlier first occurrence |
| Dedup.DropDuplicatesOrder | airbnb.py:76 | kept rows are first occurrences in the order in which they first occur |
| Numbers.ParseDecimal | airbnb.py:90 | defines the decimal grammar: an optional sign, then digits with at most one point and at least one digit (no contract of its own) |
| Numbers.UnsignedCharacters | airbnb.py:90 | an unsigned decimal is made of digits and a point, with at least one digit |
| Numbers.ParsedCharacters | airbnb.py:90 | a parsed decimal is made of digits, a point and a leading sign, with at least one digit |
| Numbers.ParseWhole | airbnb.py:90 | a string of digits parses to its value |
| Numbers.ParseUnsignedWhole | airbnb.py:90 | a non-empty string of digits reads as its value |
| Numbers.ParseUnsignedPoint | airbnb.py:90 | digits, a point and digits parse to the whole part plus the fraction |
| Numbers.ParsePartsValue | airbnb.py:90 | digits before and after the point give the whole part plus the fraction |
| Numbers.NatToDigitsValue | airbnb.py:90 | the decimal digits of a number read back as that number |
| Numbers.PaddedDigitsValue | airbnb.py:90 | zero-padded digits read back as the number |
| Numbers.DigitsValueConcat | airbnb.py:90 | the value of concatenated digits shifts the first part by the length of the second |
| Cells.FloatValue | airbnb.py:90 | defines the number read from a string: surrounding ASCII whitespace skipped, then a decimal (no contract of its own) |
| Cells.CurrencyValue | airbnb.py:89-90 | defines the number read from a string after deleting `$` and `,` (no contract of its own) |
| Cells.CleanCurrencyCell | airbnb.py:86-91 | a cell fails exactly when it is a string whose stripped form does not parse; a success never leaves a string |
| Cells.StripCurrency | airbnb.py:89 | no `$` or `,` is left, exactly the other characters remain, and the result is no longer |
| Cells.StripCurrencyConcat | airbnb.py:89 | stripping works piece by piece, so kept characters keep their order |
| Cells.StripCurrencyNoOp | airbnb.py:89 | text without `$` or `,` is unchanged |
| Cells.StripCurrencyIdempotent | airbnb.py:89 | stripping twice is stripping once |
| Cells.GroupedStripped | airbnb.py:89 | a dollar amount with thousands separators strips to plain digits of the same value |
| Cells.StripAroundComma | airbnb.py:89 | stripping `high,low` removes just the comma |
| Cells.WholeDollarsClean | airbnb.py:86-91 | a whole-dollar price such as `$1,234` cleans to its amount |
| Cells.WholeDollarsTrailingSpace | airbnb.py:86-91 | a price with a trailing space such as `$966 ` cleans to its amount |
| Cells.PointDecimalsKept | airbnb.py:89 | a point followed by digits has nothing to strip |
| Cells.PriceStripped | airbnb.py:89 | a price with decimals strips to plain dollar digits, the point and the decimals |
| Cells.PriceDigitsParse | airbnb.py:90 | those stripped digits parse to the price's amount |
| Cells.PriceParse | airbnb.py:89-90 | the currency value of a price with decimals is its amount |
| Cells.PriceClean | airbnb.py:86-91 | a price with decimals cleans to the number it stands for |
| Cells.GroupedThousands | airbnb.py:89 | 1234 is written `1,234` |
| Cells.ListingPrice | airbnb.py:86-91 | `$1,234.50` cleans to 1234.5 |
| Cells.NotNumericFails | airbnb.py:89-90 | a string holding any character other than a digit, point, sign, ASCII whitespace, `$` or `,` makes the conversion raise |
| Cells.SeparatorFails | airbnb.py:89-90 | a price starting with 0x1C makes the conversion raise, because `float()` does not skip it |
| Cells.NotNumericUnparsed | airbnb.py:90 | text holding a character that is not a digit, point, sign or ASCII whitespace is not a decimal |
| Cells.CoerceCell | airbnb.py:110 | coercion never yields a string: text becomes its number when it parses and missing otherwise, and other cells are kept |
| Cells.CoerceIdempotent | airbnb.py:110 | coercing a coerced cell changes nothing |
| Cells.DaysBookedCell | airbnb.py:121 | a number gives `365 - a` (in [0, 365] when `a` is), missing stays missing, a string raises |
| Cells.TrueFlagCells | airbnb.py:126 | `str(x).lower() == "t"` holds exactly for the strings `t` and `T` |
| Cells.IsTrueFlag | airbnb.py:126 | defines `str(x).lower() == "t"` on a cell (no contract of its own; see `TrueFlagCells`) |
| Cells.SuperhostLabel | airbnb.py:126 | the label is `Superhost` exactly for a true flag, else `Regular Host` |
| Cells.VerifiedLabel | airbnb.py:265 | the label is `Verified Host` exactly for a true flag, else `Non-Verified Host` |
| Frames.Column | airbnb.py:121 | `df[name]` reads, row by row, the cell of the first column of that name |
| Frames.SetColumn | airbnb.py:121 | `df[name] = v` keeps the header when the name is present and appends it otherwise, and the table stays rectangular |
| Frames.SetColumnReadBack | airbnb.py:121 | the written column reads back as the written values |
| Frames.SetColumnKeepsOthers | airbnb.py:121 | writing one column leaves every other column as it was |
| Frames.SetColumnTwice | airbnb.py:264-266 | a second write to the same name replaces the first entirely |
| Frames.MapColumn | airbnb.py:110 | only cells under the named column are transformed, and the header is kept |
| Frames.TryMapColumn | airbnb.py:93-97 | the write succeeds exactly when every cell converts, and then changes only that column |
| Frames.NormalizeHeaders | airbnb.py:42-48 | renaming leaves the rows untouched |
| Frames.DropUnneededColumns | airbnb.py:59 | header and rows are pruned consistently and no row is lost |
| Frames.DropDuplicateRows | airbnb.py:76 | the header is kept and the table does not grow |
| Frames.CleanCurrencyColumn | airbnb.py:93-97 | on success the header and row count are kept |
| Frames.CleanCurrency | airbnb.py:93-97 | on success the header and row count are kept |
| Frames.CurrencyColumn | airbnb.py:86-97 | a currency write fails exactly when the column has a string that does not parse; otherwise each string there becomes its number and nothing else changes |
| Frames.CurrencyColumnIdempotent | airbnb.py:86-97 | a cleaned currency column cleans again to itself |
| Frames.CoerceFor | airbnb.py:108-110 | the loop keeps the header and the row count |
| Frames.CoerceColumn | airbnb.py:109-110 | coercing one column keeps the header and the row count |
| Frames.CoerceNumeric | airbnb.py:108-110 | the whole coercion keeps the header and the row count |
| Frames.CoerceForCells | airbnb.py:108-110 | after the loop, cells under the listed names are coerced once and all others are untouched |
| Frames.NumericCoercion | airbnb.py:100-110 | the five listed columns hold no string afterwards, each parses or becomes missing, and the other columns are untouched |
| Frames.NumericCoercionIdempotent | airbnb.py:100-110 | coercing twice is coercing once |
| Frames.DaysBookedValues | airbnb.py:121 | `365 - column` succeeds exactly when no cell is a string, computed cell by cell |
| Frames.AddDaysBooked | airbnb.py:120-121 | on success `days_booked` is added exactly when `availability_365` exists and `days_booked` is new |
| Frames.DaysBooked | airbnb.py:120-121 | without `availability_365` the table is unchanged; otherwise the step fails exactly on a string, and `days_booked` is `365 - a`, missing for missing |
| Frames.DaysBookedAfterCoercion | airbnb.py:108-121 | after the coercion, computing `days_booked` cannot fail |
| Frames.LabelColumn | airbnb.py:264-266 | `is_superhost` is added or overwritten, and the table stays rectangular |
| Frames.LabelColumnCells | airbnb.py:264-266 | the label column holds the label of the source cell, row by row |
| Frames.LabelSuperhosts | airbnb.py:124-127 | the column is added only when `host_is_superhost` exists |
| Frames.SuperhostLabels | airbnb.py:124-127 | without the flag the table is unchanged; otherwise `Superhost` exactly on true flags and `Regular Host` elsewhere |
| Frames.LabelVerifiedHosts | airbnb.py:264-266 | on success `is_superhost` is present |
| Frames.VerifiedLabels | airbnb.py:264-266 | fails exactly when `host_identity_verified` is absent; otherwise `Verified Host` exactly on true flags and `Non-Verified Host` elsewhere |
| Frames.LabelsOverwritten | airbnb.py:124-266 | the second labelling erases every trace of the first |
| Frames.SetColumnNoText | airbnb.py:121 | a write keeps other columns free of strings, and the written one too when the values are not strings |
| Frames.CurrencyNoText | airbnb.py:93-97 | after the currency step `price` and `service_fee` hold no string |
| Frames.CoercionNoText | airbnb.py:108-110 | the coercion makes the listed columns string-free and keeps the string-free columns so |
| Frames.DaysBookedNoText | airbnb.py:120-121 | adding `days_booked` keeps string-free columns so and adds a string-free one |
| Frames.LabelsNoText | airbnb.py:124-266 | the labelling keeps every other column string-free |
| Frames.Prepare | airbnb.py:42-76 | the steps before the currency cleaning never fail and never add rows |
| Frames.Finish | airbnb.py:100-266 | the steps after the currency cleaning keep the row count when they succeed |
| Frames.Clean | airbnb.py:42-266 | a successful run yields a rectangular table with no more rows than the input |
| Frames.Interrupted | airbnb.py:42-266 | for a failing run, the table as the raising statement finds it; it is rectangular and has no more rows than the input |
| Frames.CleanStages | airbnb.py:42-266 | a successful run is a successful currency step followed by a successful finish |
| Frames.PrepareColumns | airbnb.py:42-59 | the prepared columns are the normalised names minus the four dropped ones |
| Frames.AvailabilityKept | airbnb.py:59 | `availability_365` survives pruning exactly when it was there |
| Frames.FinishFailure | airbnb.py:120-266 | the last steps fail exactly when `host_identity_verified` is absent |
| Frames.CleanFailure | airbnb.py:93-266 | the run fails exactly when a currency string does not parse or `host_identity_verified` is absent |
| Frames.FinishColumns | airbnb.py:120-266 | the last steps add `days_booked` when `availability_365` is there, and `is_superhost` |
| Frames.CleanColumns | airbnb.py:42-266 | the columns of a cleaned table are exactly the normalised, unpruned names, plus `days_booked` when `availability_365` was there, plus `is_superhost` |
| Frames.FinishLabels | airbnb.py:264-266 | after the last steps every row carries one of the two host labels |
| Frames.CleanLabels | airbnb.py:264-266 | after a successful run every row carries `Verified Host` or `Non-Verified Host` |
| Frames.FinishNoText | airbnb.py:108-127 | the last steps keep string-free columns so and make the numeric ones so |
| Frames.NumericNotAdded | airbnb.py:93-121 | no numeric column is one of the two added names |
| Frames.CleanNumbers | airbnb.py:93-110 | after a successful run `price`, `service_fee` and the five numeric columns hold no string |
| Frames.FinishDaysBooked | airbnb.py:120-121 | with `availability_365` present, `days_booked` holds no string after the last steps |
| Frames.CleanDaysBooked | airbnb.py:120-121 | after a successful run with `availability_365`, `days_booked` holds no string |
| Frames.DaysBookedNormalized | airbnb.py:121 | `days_booked` is in normalised form |
| Frames.HostLabelNormalized | airbnb.py:125 | `is_superhost` is in normalised form |
| Frames.CleanNamesNormalized | airbnb.py:42-266 | every column name of a cleaned table is normalised, so normalising the headers again changes nothing |
| Pipeline.Table.constructor | airbnb.py:21 | the table holds the file's header and rows |
| Pipeline.Table.NormalizeHeaders | airbnb.py:42-48 | the table becomes the normalised table |
| Pipeline.Table.DropUnneededColumns | airbnb.py:59 | the table becomes the pruned table |
| Pipeline.Table.DropDuplicates | airbnb.py:76 | the table becomes the de-duplicated table |
| Pipeline.Table.CleanCurrencyColumn | airbnb.py:93-97 | success exactly when the column cleans; then the table is the cleaned one, otherwise it is unchanged |
| Pipeline.Table.CleanCurrencyColumns | airbnb.py:93-97 | success exactly when both columns clean, and then the table is the cleaned one; on failure the table is unchanged, or has `price` converted when only `service_fee` failed |
| Pipeline.Table.CoerceNumericColumns | airbnb.py:108-110 | the loop leaves the table equal to the coerced table |
| Pipeline.Table.AddDaysBooked | airbnb.py:120-121 | success exactly when `365 - column` succeeds; the table is then updated, otherwise unchanged |
| Pipeline.Table.LabelSuperhosts | airbnb.py:124-127 | the table becomes the superhost-labelled table |
| Pipeline.Table.LabelVerifiedHosts | airbnb.py:264-266 | success exactly when the column exists; the table is then updated, otherwise unchanged |
| Pipeline.Table.Clean | airbnb.py:42-266 | success exactly when the modelled run succeeds; then the table is the cleaned table, otherwise it is `Frames.Interrupted` of the input |
| Ranking.Present | airbnb.py:165-166 | dropping missing means never lengthens the table |
| Ranking.PresentMembers | airbnb.py:165-166 | a ranked entry comes exactly from a group with that name and a present mean |
| Ranking.NLargest | airbnb.py:165 | `nlargest(n)` returns `min(n, present)` groups |
| Ranking.NSmallest | airbnb.py:166 | `nsmallest(n)` returns `min(n, present)` groups |
| Ranking.Select | airbnb.py:165-166 | defines the selection: the first best group, then the selection from the rest (no contract of its own; see `SelectSorted`, `SelectSplit`) |
| Ranking.Rest | airbnb.py:165-166 | defines the groups a selection leaves out (no contract of its own; see `SelectSplit`) |
| Ranking.BestIndex | airbnb.py:165-166 | the chosen position is in range |
| Ranking.BestIndexBest | airbnb.py:165-166 | nothing ranks ahead of the chosen group, and it ranks strictly ahead of every earlier one (first of ties) |
| Ranking.RemoveAt | airbnb.py:165-166 | removing one entry shortens the sequence by one |
| Ranking.RemoveAtMember | airbnb.py:165-166 | what is left after a removal comes from the input |
| Ranking.SelectLength | airbnb.py:165-166 | a selection holds `min(k, n)` groups |
| Ranking.OccurrencesMultiset | airbnb.py:165-166 | the occurrence count is the multiset multiplicity |
| Ranking.RemoveAtOccurrences | airbnb.py:165-166 | removing an entry takes exactly one copy of it out |
| Ranking.SelectOccurrences | airbnb.py:165-166 | each group is selected or left out as often as it occurs |
| Ranking.SelectSplit | airbnb.py:165-166 | selected and left-out groups together are a permutation of the input |
| Ranking.SelectedMember | airbnb.py:165-166 | selected groups come from the input |
| Ranking.RestMember | airbnb.py:165-166 | left-out groups come from the input |
| Ranking.BestBeats | airbnb.py:165-166 | no group ranks ahead of the best one |
| Ranking.SelectSorted | airbnb.py:165-166 | the selection is in descending (`nlargest`) or ascending (`nsmallest`) order |
| Ranking.SelectBeatsRest | airbnb.py:165-166 | no left-out group ranks strictly ahead of a selected one |
| Ranking.KeysAheadBound | airbnb.py:165-166 | there are no more distinct mean prices ahead of a key than groups ahead of it |
| Ranking.KeysSplit | airbnb.py:165-166 | every mean price is above a key, below it, or equal to it |
| Ranking.SelectedRank | airbnb.py:165-166 | a group among the best `k` has fewer than `k` groups strictly ahead of it |
| Ranking.RemoveAtCount | airbnb.py:165-166 | removing one group lowers the count ahead of a key by at most one |
| Ranking.CountAheadNone | airbnb.py:165-166 | nothing is ahead of a key that nothing beats |
| Ranking.SelectedBothWays | airbnb.py:165-166 | a group among both the best and the worst `k` leaves fewer than `2k` distinct mean prices |
| Ranking.TopAndBottomDisjoint | airbnb.py:165-166 | with at least 20 distinct mean prices, the ten most and the ten least expensive neighbourhoods share none |

## Left out

- File I/O: `read_csv` (line 21) is the `Table` constructor's parameters, and the CSV/Excel export (lines 283-284) is not modelled.
- Output and plotting: all printing, `info`/`head`, the shape and missing-value reports (lines 23-31, 50-51, 61, 67-68, 74, 78) and every plot (lines 169-258, 269-278).
- The reporting code (lines 133-151, 157-163, 202-210, 220-234): `value_counts`, `idxmax`, `groupby().mean()`, quantiles and `np.log`. These are float statistics and pandas sort internals. Some of them can raise: `idxmax` on an empty selection, or the unguarded plot at line 220 without `review_rate_number`. The model runs the labelling at lines 264-266 straight after line 127 and assumes that none of this code raised on the way.
- Ranking.Present: the per-neighbourhood mean price is abstracted to an optional integer key. Float averaging is not modelled. Groups with a missing mean are dropped: pandas would append them after the present ones when fewer than `n` means are present.
- Floating point: numbers are exact reals. `float()` rounding, `nan`/`inf` spellings, exponents, `_` separators and non-ASCII digits are outside the decimal grammar of `Numbers.ParseDecimal`.
- Cells.FloatValue: one decimal parse that skips ASCII whitespace models both `astype(float)` and `pd.to_numeric`. `float()` also skips non-ASCII Unicode whitespace, and pandas' parser differs from `float()` in minor spellings; neither is modelled.
- Cells.NotNumericFails: `float()` also reads `nan`, `inf`, `infinity` and exponent forms such as `1e3`, so `"$nan"` becomes a missing value and `"$1e3"` becomes 1000 where the model fails.
- Frames.CoerceColumn: with two columns of the same name, the script's `df[col]` is a DataFrame and `pd.to_numeric` raises `TypeError` at line 110. The model instead coerces every column of that name and never fails.
- Text.Lower and Text.Strip handle ASCII only (`Strip` removes the ASCII characters `str.isspace` accepts, 0x09-0x0D and 0x1C-0x20). Full Unicode case mapping and whitespace classes are not modelled.
- Frames.Column: a derived column reads the first column of a duplicated name. pandas would return a DataFrame there and raise or broadcast differently.
- Types inferred by `read_csv`: boolean or integer dtypes are given as cells directly. `str(x)` of a number is not modelled, beyond the fact that it never reads `t`.
- Pipeline.Table.Clean: a failing statement returns `false` with the table as that statement found it (`Frames.Interrupted`). The script's exception and its traceback are not modelled.

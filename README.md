# Attendance loader and list filter, modelled in Dafny

This project models the core of a small attendance dashboard. Two loaders
read the male and the female attendance CSV files and turn each data row
into a `Person` record:

- the roll number is read with `parseInt(…, 10)`;
- the trimmed name is kept;
- the percentage is read with `parseFloat` after a final `%` is stripped;
- a person is eligible when that unrounded value is at least 80;
- the value is stored rounded with `Math.round`, or as 0 when it is `NaN`.

Rows without a roll number or a name are dropped with a warning. The list
view then filters the records by the selected group, by a case-insensitive
name search and by an optional "eligible only" toggle. It shows the
number of eligible people and the total.

Both source files are pure computations. The model is therefore built
from datatypes, functions and lemmas:

- `wrappers.dfy` holds `Option` and `Result`.
- `seqs.dfy` holds `Array.prototype.filter` as `Filter`, with a ghost
  index sequence `Kept` for stating that a result is a subsequence. It also
  holds the source's `.filter(x => x !== null)` as `Present`.
- `js_strings.dfy` holds the JavaScript string operations the core uses:
  - `trim`, with the exact ECMAScript WhiteSpace and LineTerminator set;
  - the leading-space skip of the number parsers;
  - ASCII `toLowerCase`;
  - `includes`.
- `js_numbers.dfy` holds `parseInt(s, 10)` and `parseFloat` as prefix
  parsers over exact rationals, plus `Infinity`. `NaN` is `None`. It also
  holds `Math.round` and the decimal writing of integers.
- `types.dfy` holds the `Person` record.
- `attendance_data.dfy` holds both loaders, written once.
  - A `FileSpec` carries what differs between the files: the path, the
    group name used in messages, the roll-number header (`Roll no` or
    `Roll No`), the gender and whether the `profileImage` column is read.
  - `MaleFile` and `FemaleFile` are the two instances.
  - The response check, the tokenizer verdict and the row normaliser are
    separate functions.
  - A loader is `Load`, which takes the tokenizer as a function parameter.
- `attendance_list.dfy` holds the list view's filter and its two counts.

## Behaviour worth noting

- **Eligible count.** The eligible count is taken from the list *after* the
  toggle is applied. `AttendanceList.ToggleOnKeepsEligibleCount` and
  `AttendanceList.EligibleCountIsEligibleListed` show that this number is
  the same whichever way the toggle is set.
- **No clamping.** The stored percentage is not clamped to 0..100.
- **Redundant guard.** The `!== '0'` guard on the percentage warning is
  redundant, because `parseFloat("0")` is 0 (`AttendanceData.ZeroParses`).
  For a kept row, a warning about the percentage is logged exactly when the
  percentage does not parse. A dropped row warns about its roll number or
  its name instead, never about its percentage.
- **Rounding and the threshold.** Eligibility is decided on the unrounded
  value and the stored value is rounded, so the two disagree for values in
  [79.5, 80) and only there (`AttendanceData.EligibleVersusStored`).

## Model

| member | source | states |
|---|---|---|
| JsStrings.Trim | src/data/attendanceData.ts:85 | `trim` returns the slice that starts after the leading white space. Everything outside the slice is white space, and a non-empty result neither starts nor ends with white space. |
| JsStrings.TrimEmptyIffAllWhitespace | src/data/attendanceData.ts:74 | `s.trim() === ''` holds exactly when every character of `s` is white space. |
| JsStrings.ToLower | src/components/AttendanceList.tsx:18 | `toLowerCase` keeps the length. It maps A-Z to a-z and leaves every other character unchanged. |
| JsStrings.Includes | src/components/AttendanceList.tsx:18 | A string includes only needles no longer than itself. |
| JsStrings.IncludesIffOccurs | src/components/AttendanceList.tsx:18 | `includes(hay, needle)` holds exactly when `needle` occurs at some position of `hay`. |
| JsStrings.IncludesEmpty | src/components/AttendanceList.tsx:18 | Every name includes the empty search term. |
| JsNumbers.Round | src/data/attendanceData.ts:86 | `Math.round` gives a whole number within half a unit, with halves going up. Infinities are kept. |
| JsNumbers.RoundUnique | src/data/attendanceData.ts:86 | The rounding of `x` is the one whole `n` with `n - 0.5 <= x < n + 0.5`. |
| JsNumbers.ParseIntShowInt | src/data/attendanceData.ts:65 | `parseInt(…, 10)` reads back every integer written in decimal, whatever non-digit text follows. |
| JsNumbers.ParseIntSkipsWhitespace | src/data/attendanceData.ts:65 | Leading white space does not change what `parseInt` reads. |
| JsNumbers.ParseIntIff | src/data/attendanceData.ts:65 | `parseInt(s, 10)` is `n` exactly when `s` is white space, an optional sign and a non-empty digit run worth `n` with that sign, followed by text that does not start with a digit. |
| JsNumbers.ParseIntNoDigit | src/data/attendanceData.ts:65 | Text with no digit, including the "undefined" of a missing field, is `NaN` to `parseInt`. |
| JsNumbers.ParseFloatSkipsWhitespace | src/data/attendanceData.ts:67 | Leading white space does not change what `parseFloat` reads. |
| JsNumbers.ParseFloatNaNIff | src/data/attendanceData.ts:67 | `parseFloat` gives `NaN` exactly when, after the leading white space and an optional sign, the text starts neither with `Infinity`, nor with a digit, nor with a point followed by a digit. |
| JsNumbers.ParseFloatNoDigit | src/data/attendanceData.ts:67 | Text with no digit whose unsigned part does not start with `Infinity` is `NaN` to `parseFloat`; "Ice" and "abc" are examples. |
| JsNumbers.ParseFloatDecimal | src/data/attendanceData.ts:67 | `parseFloat` reads `whole.fraction` exactly, whatever text follows that cannot extend the literal. |
| JsNumbers.ParseFloatInteger | src/data/attendanceData.ts:67 | `parseFloat` reads a decimal integer exactly, whatever follows it that is not a digit, `.`, `e` or `E` (a `%`, a space, the end). |
| JsNumbers.ShowNatValue | src/data/attendanceData.ts:34 | The decimal digits written for `n` have the value `n`. |
| Seqs.Filter | src/data/attendanceData.ts:91 | The filtered sequence is no longer than its input. Each of its elements is in the input and passes the test. |
| Seqs.FilterIsSubsequence | src/components/AttendanceList.tsx:15-21 | The filter keeps, in their original order, exactly the positions whose element passes. |
| Seqs.FilterMembership | src/components/AttendanceList.tsx:15-21 | An element is in the filtered sequence exactly when it is in the input and passes. |
| Seqs.FilterAppend | src/components/AttendanceList.tsx:15-21 | Filtering a concatenation filters each part. |
| Seqs.FilterFilter | src/components/AttendanceList.tsx:23 | Filtering by `q` and then by `p` is one filtering by "`q` and `p`". |
| Seqs.FilterIdempotent | src/components/AttendanceList.tsx:15-21 | Filtering twice by the same test is filtering once. |
| Seqs.FilterAllPass | src/components/AttendanceList.tsx:23 | A sequence whose elements all pass is its own filtering. |
| Seqs.PresentAppend | src/data/attendanceData.ts:91 | Dropping the `null`s of a sequence with one more option appends that option's value, if it has one. |
| AttendanceData.StripTrailingPercent | src/data/attendanceData.ts:66 | `replace(/%$/, '')` removes exactly one final `%` and nothing else. |
| AttendanceData.CleanPercentage | src/data/attendanceData.ts:66 | A missing or empty field becomes "0". Otherwise the result is the slice of the field that starts after its leading white space, is followed only by white space up to a final `%` or the end, and neither starts nor ends with white space. |
| AttendanceData.ProfileImage | src/data/attendanceData.ts:89 | The male loader stores the trimmed picture reference when it is not blank, and nothing otherwise. The female loader never stores one. |
| AttendanceData.StoredPercentage | src/data/attendanceData.ts:86 | The stored percentage is whole. It is 0 for `NaN`, the infinity itself for an infinite value, and otherwise within half a unit of the parsed value. |
| AttendanceData.EligibleVersusStored | src/data/attendanceData.ts:68-86 | An eligible value is stored as 80 or more. A value stored as 80 or more that is not eligible is finite and lies in [79.5, 80). |
| AttendanceData.NormaliseRow | src/data/attendanceData.ts:60-91 | A row is dropped exactly when its roll number is `NaN` or its name is missing or blank, and a dropped row always warns. A kept record has the parsed roll number, the trimmed non-empty name, the file's gender, eligibility by the unrounded value, the rounded percentage and the file's picture rule. A kept row warns exactly when its percentage does not parse. Every warning cites row `index + 2`. |
| AttendanceData.BlankNameIsFalsyOrTrimsEmpty | src/data/attendanceData.ts:74 | The source's test for a missing name (falsy, or trimming to the empty string) holds exactly when the name is missing or all white space. |
| AttendanceData.ZeroParses | src/data/attendanceData.ts:78-79 | `parseFloat("0")` is 0, so the stand-in "0" for a missing percentage never warns. |
| AttendanceData.MapRows | src/data/attendanceData.ts:60 | `map` gives one result per row. |
| AttendanceData.Normalise | src/data/attendanceData.ts:60-91 | A batch has at most as many records as rows. |
| AttendanceData.RowWarnings | src/data/attendanceData.ts:70-81 | A batch logs at most one warning per row. |
| AttendanceData.RowWarningsAppend | src/data/attendanceData.ts:70-81 | One more row adds its own warning, if it logs one, at the end of the batch's warnings, so a batch logs its rows' warnings in row order. |
| AttendanceData.NormaliseKeepsRowsInOrder | src/data/attendanceData.ts:60-91 | The records are the kept rows' records, in row order. Each record comes from exactly one row, and a row contributes exactly when it is kept. |
| AttendanceData.NormaliseRecordsWellFormed | src/data/attendanceData.ts:83-90 | Every record's name is non-empty and trimmed, its gender is the file's, and its percentage is whole. No female record has a picture. |
| AttendanceData.NormaliseAppendRow | src/data/attendanceData.ts:60-91 | One more row adds its record at the end when it is kept, and nothing when it is dropped. |
| AttendanceData.InvalidRollDropsRow | src/data/attendanceData.ts:70-73 | A roll number that `parseInt` reads as `NaN` drops the row with an invalid-roll-number warning at row `index + 2`, whatever the name and percentage. |
| AttendanceData.MissingRollDropsRow | src/data/attendanceData.ts:61-73 | A row without the roll-number column is dropped with an invalid-roll-number warning. |
| AttendanceData.FemaleRowIsDroppedByMaleLoader | src/data/attendanceData.ts:61 | The male loader reads `Roll no`, so it drops a row that only has the female file's `Roll No`. |
| AttendanceData.BlankNameDropsRow | src/data/attendanceData.ts:74-77 | A row with a roll number but a missing or blank name is dropped with a missing-name warning. |
| AttendanceData.EmptyPercentageIsSilentZero | src/data/attendanceData.ts:66-81 | A missing or empty percentage keeps the row with 0, not eligible, and no warning. |
| AttendanceData.UnparseablePercentageWarns | src/data/attendanceData.ts:79-86 | A percentage that does not parse keeps the row with 0, not eligible, and logs an invalid-percentage warning. |
| AttendanceData.AbcDoesNotParse | src/data/attendanceData.ts:66-67 | "abc" is such a percentage. |
| AttendanceData.RoundedToEightyIsNotEligible | src/data/attendanceData.ts:68 | "79.6%" is stored as 80 but is not eligible. |
| AttendanceData.EightyIsEligible | src/data/attendanceData.ts:68 | "80" is eligible and stored as 80. |
| AttendanceData.PercentBeforeSpaceIsKept | src/data/attendanceData.ts:66 | Only a final `%` is removed, so "80% " cleans to "80%", which still parses as 80. |
| AttendanceData.ReadResponse | src/data/attendanceData.ts:29-40 | A 404 is a missing file naming the path. Any other failure is an HTTP error with its status. A white-space-only body is an empty file. Only the remaining case continues, with the body. |
| AttendanceData.ParseBatch | src/data/attendanceData.ts:48-58 | Any tokenizer error rejects the file with the first error's message and row. Otherwise the result is the normalised rows, which is `[]` for no rows. |
| AttendanceData.Load | src/data/attendanceData.ts:26-101 | A load succeeds exactly when the response is OK and non-blank and its tokenizing has no error, and then yields the normalised rows. Each failing response gives its own error, and a tokenizing error gives the batch's parse failure with the first error. |
| AttendanceData.NotFoundMessageNamesPath | src/data/attendanceData.ts:32 | The missing-file message contains the file's path. |
| AttendanceData.EmptyFileMessageNamesGroup | src/data/attendanceData.ts:39 | The empty-file message names the file's group. |
| AttendanceData.ParseFailedMessageNamesCause | src/data/attendanceData.ts:51 | The parse-failure message names the file's group and contains the tokenizer's message. |
| AttendanceData.HttpMessageNamesStatus | src/data/attendanceData.ts:34 | The HTTP error message ends with the status, which `parseInt` reads back. |
| AttendanceData.HeaderOnlyFileLoadsEmpty | src/data/attendanceData.ts:54-58 | A file with a header and no data rows loads as no records. |
| AttendanceList.Listed | src/components/AttendanceList.tsx:16-20 | A listed person has the tab's gender and a name at least as long as the search term, and is eligible when the toggle is on. |
| AttendanceList.FilteredPeople | src/components/AttendanceList.tsx:15-21 | Every listed person is one of the people, has the selected gender, matches the search and, with the toggle on, is eligible. |
| AttendanceList.CountsOf | src/components/AttendanceList.tsx:23-24 | The total is the length of the filtered list. The eligible count never exceeds it, and equals it when the toggle is on. |
| AttendanceList.EligibleCountIsEligibleListed | src/components/AttendanceList.tsx:23 | Whichever way the toggle is set, the eligible count is the number of people in the tab's group who match the search and are eligible. |
| AttendanceList.ListedEligibleWhenToggled | src/components/AttendanceList.tsx:19 | With the toggle on, every listed person is eligible. |
| AttendanceList.ListedIff | src/components/AttendanceList.tsx:16-20 | A person is listed exactly when all three hold: the gender is the tab's; the lower-cased term occurs in the lower-cased name; and, with the toggle on, the person is eligible. |
| AttendanceList.EmptySearchMatchesEveryName | src/components/AttendanceList.tsx:18 | An empty search term lists everyone of the tab's gender who passes the toggle. |
| AttendanceList.ToggleOffIgnoresEligibility | src/components/AttendanceList.tsx:19 | With the toggle off, changing a person's eligibility does not change whether they are listed. |
| AttendanceList.FilteredMembership | src/components/AttendanceList.tsx:15-21 | One of the people is listed exactly when they pass the test. |
| AttendanceList.FilteredIsSubsequence | src/components/AttendanceList.tsx:15-21 | The list is the people at an increasing choice of positions, and those are exactly the positions whose person passes. |
| AttendanceList.FilterAgainUnchanged | src/components/AttendanceList.tsx:15-21 | Filtering the list again with the same settings changes nothing. |
| AttendanceList.ToggleOnKeepsEligibleCount | src/components/AttendanceList.tsx:15-24 | With the toggle on, the list is the eligible part of the list with the toggle off. The total never grows, and the eligible count stays the same. |

## Left out

- `fetch`, `async` and the `Promise` plumbing are not modelled. The response is the input of `Load`.
- Console output is not modelled. Only the three per-row `console.warn` calls (lines 71, 75 and 80, and 158, 162 and 166) are represented, as `Warning` values. The no-data-rows warning (lines 55 and 140) and the `console.error` calls (lines 31, 38, 49, 96 and 103, and 116, 123, 134, 182 and 189) are not.
- `Papa.parse` is not modelled. Its result is an input function of `Load` (header-keyed rows plus an error list). Its own `error` callback (lines 95-98 and 181-184) and its CSV grammar are left out.
- The final `catch` that wraps a thrown non-`Error` in a generic message (lines 102-105 and 188-191) is left out, because every error the modelled code throws is an `Error`.
- The text of console warnings is represented by `WarningKind` and the row number only. The loaders' thrown messages are modelled (`AttendanceData.Message`).
- JsNumbers.ParseFloat: values are exact rationals. IEEE-754 rounding, overflow to `Infinity` on huge exponents, and `-0` are not modelled.
- JsNumbers.Round: it works on exact rationals, so IEEE effects such as `Math.round(0.49999999999999994)` are not modelled.
- JsStrings.ToLower: it only maps ASCII A-Z, because a full Unicode case mapping is out of reach. Names outside ASCII are compared exactly.
- JsStrings.IsWhitespace: it uses the Unicode space-separator list that current engines use. Later Unicode versions may change that list.
- `Person.id` is an unbounded integer. JavaScript numbers lose precision beyond 2^53.
- The page, card, timer, header, footer and navigation components are not part of this model. This includes `src/pages/AttendancePage.tsx`, which calls only the male loader.
- A load combining both files is not part of this model, because no file of the core combines them.

# DataPoints site-tracking rules in Dafny

`process_file` in `DataPoints/app.py` reads a clinical-trial site-tracking
table and returns a dictionary with six entries. Each entry maps a fixed
message to the `SITE NUMBER` values of the rows that break one data-quality
rule:

1. `ACTIVATION COMPLETE` mentions "Overdue" and the first number in that text is at least 30;
2. `PSV COMPLETE` is later than `SELECTED`;
3. `FIRST SUBMISSION PLANNED` is later than `ALL APPROVALS PLANNED`;
4. `FIRST SUBMISSION COMPLETE` is later than `ALL APPROVALS COMPLETE`;
5. `SITE STATUS` is "Selected" and `SITE STATUS EFFECTIVE DATE` is 365 days or more before today;
6. `SITE STATUS` is "SIV Ready" and `SITE STATUS EFFECTIVE DATE` is 90 days or more before today.

The function is written as pure expressions over a data frame, so the
model is made of datatypes, functions and lemmas:

- `Wrappers`: `Option` and `Result`.
- `Text`: the two string operations of rule 1. `Contains` models
  `str.contains` (case-sensitive substring). `FirstDigitRun` and
  `ExtractedNumber` model `str.extract(r'(\d+)')` followed by
  `astype(float).fillna(0)`.
- `Rules`: a parsed row (`Row`, where `None` is NaN or NaT), the six rules
  as a per-row predicate `Violates`, the boolean mask of a rule (`Mask`),
  `df.loc[mask, 'SITE NUMBER']` as `Select`, and `.dropna()` as `DropMissing`.
- `Engine`: the returned dictionary (`Report`, `AsDict`) and how each list
  relates to the rows.
- `Frames`: the table as the program really handles it. Date cells start raw
  and are overwritten in place by `pd.to_datetime(..., errors='coerce')`,
  column by column, between the rules. `ProcessFrame` is proved to make this
  staged evaluation give the same report as evaluating every rule on fully
  parsed rows. `ProcessFile` adds the `KeyError` raised for a missing column.
- `Scenarios`: concrete activation texts, date boundaries, the two-site table
  and a missing-column table.

Timestamps are integers counting nanoseconds, which is the resolution of
pandas. A day is `NanosPerDay` nanoseconds. The time the program reads with
`datetime.today()` is the parameter `now`. The date parser is the parameter
`parse`, of type `Parser`.

Rule 1 uses only the first number: `str.extract` with a single group returns
the first match, and `.any(axis=1)` then looks at that one column. So
"Overdue 5 of 40" is not flagged
(`Scenarios.OnlyFirstNumberCounts`).

Two behaviours of the code are kept as they are:

- Rule 1 keeps rows that have no `SITE NUMBER`, so its list can hold absent
  entries (`Option<SiteNumber>`). Rules 2 to 6 drop them.
- Duplicate identifiers are listed once per flagged row (`Engine.DuplicatesKept`).

## Model

| member | source | states |
|---|---|---|
| Text.Contains | DataPoints/app.py:16 | `str.contains` as a left-to-right scan of start positions; a pattern longer than the text is never contained |
| Text.DecimalValue | DataPoints/app.py:17 | `astype(float)` of a digit string, read in base ten; it is 0 exactly when every digit is '0' |
| Text.ContainsIffOccurs | DataPoints/app.py:16 | `str.contains('Overdue')` holds exactly when "Overdue" occurs at some position of the text |
| Text.MissingCharNotContained | DataPoints/app.py:16 | a text that lacks one character of the pattern does not contain it |
| Text.ContainsPrefix | DataPoints/app.py:16 | a text that starts with the pattern contains it |
| Text.LeadingDigits | DataPoints/app.py:17 | the greedy `\d+`: the result is a prefix, is all digits, and is followed by a non-digit or by the end of the text |
| Text.LeadingDigitsOfRun | DataPoints/app.py:17 | a digit run followed by a non-digit or by the end is matched whole |
| Text.LeadingZeroIgnored | DataPoints/app.py:17 | `astype(float)` of a digit run ignores a leading zero |
| Text.FirstDigitRun | DataPoints/app.py:17 | `str.extract` finds no match exactly when the text has no digit |
| Text.FirstDigitRunStartsAtFirstDigit | DataPoints/app.py:17 | the extracted number is the run that starts at the first digit, never a later run |
| Text.FirstDigitRunAfter | DataPoints/app.py:17 | digit-free text, then a maximal digit run, then anything: the extracted number is that run's value |
| Text.ExtractedNumber | DataPoints/app.py:17 | `fillna(0)`: a text with no digit reads as 0 |
| Rules.OverdueActivation | DataPoints/app.py:16-17 | rule 1 on one cell: text mentioning "Overdue" whose extracted number is at least 30; a flagged text has a first digit run, and that run is at least 30 |
| Rules.NoOverdueNotFlagged | DataPoints/app.py:16 | text that does not contain "Overdue" is never flagged, whatever numbers it holds |
| Rules.FirstNumberDecides | DataPoints/app.py:15-19 | "Overdue", digit-free text, then a digit run: rule 1 flags it if and only if that first run is at least 30 |
| Rules.Later | DataPoints/app.py:24 | `a > b` on two parsed dates: true only when both are present (NaT compares false) and the dates differ |
| Rules.StaleFor | DataPoints/app.py:43 | `d <= today - timedelta(days=N)`, inclusive: true only for a present date that is not after `now` |
| Rules.Violates | DataPoints/app.py:16-49 | the six masks of lines 16-17, 24, 30, 37, 43 and 49; a row is flagged only when every cell its rule reads is present (no NaN, no NaT) |
| Rules.StaleRulesExclusive | DataPoints/app.py:42-51 | rules 5 and 6 never flag the same row |
| Rules.ViolatesReadsOnlyItsColumns | DataPoints/app.py:15-51 | each rule's mask depends only on the columns that rule reads |
| Rules.FlaggedReadsOnlyItsColumns | DataPoints/app.py:15-51 | two tables that agree row by row on the columns a rule reads get the same list for that rule |
| Rules.Select | DataPoints/app.py:15-19 | `df.loc[mask, col]` never has more entries than the column |
| Rules.TrueAt | DataPoints/app.py:15-19 | the positions where a mask is true: all in range, all true, strictly ascending, none missed |
| Rules.SelectFollowsMask | DataPoints/app.py:15-19 | `df.loc[mask, col].tolist()` lists the entry at each true position exactly once, in row order, and nothing else |
| Rules.Flagged | DataPoints/app.py:15-19 | `df.loc[mask, 'SITE NUMBER'].tolist()`: no longer than the table, and every entry is the identifier of a row that breaks the rule |
| Rules.DropMissing | DataPoints/app.py:24 | `.dropna()` never adds entries |
| Rules.DropMissingCounts | DataPoints/app.py:24 | `.dropna()` keeps every present identifier as many times as it occurs, and nothing else |
| Rules.DropMissingAppend | DataPoints/app.py:24 | `.dropna()` keeps relative order: it distributes over concatenation |
| Rules.DropMissingSelect | DataPoints/app.py:24 | selecting and then dropping absent identifiers is the same as selecting with the mask narrowed to present identifiers |
| Engine.ProcessRows | DataPoints/app.py:14-51 | no list is longer than the table |
| Engine.NamesDistinct | DataPoints/app.py:53-60 | the six dictionary keys are pairwise distinct, so no entry overwrites another |
| Engine.AsDict | DataPoints/app.py:53-60 | the dictionary has exactly the six keys, each mapped to its rule's list |
| Engine.ReportedRows | DataPoints/app.py:15-51 | the positions of the contributing rows: in range, contributing, strictly ascending, none missed |
| Engine.ListingSelects | DataPoints/app.py:15-51 | each list is the `SITE NUMBER` column selected by "flagged and, outside rule 1, identified" |
| Engine.ReportFollowsRows | DataPoints/app.py:15-51 | each list holds the identifiers of exactly the contributing rows, once per row, in row order |
| Engine.ReportedIff | DataPoints/app.py:15-51 | an identifier is listed under a rule if and only if some row with it breaks the rule; outside rule 1 an absent identifier is never listed |
| Engine.DuplicatesKept | DataPoints/app.py:15-51 | two flagged rows with the same identifier give two entries, in row order |
| Frames.ConvertCell | DataPoints/app.py:22 | overwriting one date column replaces that cell with its parsed form and leaves every other cell of the row unchanged |
| Frames.ConvertColumn | DataPoints/app.py:22-23 | `df[col] = pd.to_datetime(df[col], errors='coerce')` (also lines 27-28, 34-35 and 41): same rows, that column's cells replaced by their parsed form, every other cell and the text columns unchanged |
| Frames.ConvertColumnIdempotent | DataPoints/app.py:22 | converting a column that is already converted changes nothing |
| Frames.Typed | DataPoints/app.py:22-41 | a fully parsed row keeps the text cells, and each date is the parsed form of its cell |
| Frames.ConvertedUpToStage | DataPoints/app.py:22-41 | after the first k conversions, exactly those columns hold parsed dates and the rest of each row is unchanged |
| Frames.ConvertedBeforeRead | DataPoints/app.py:22-49 | each rule runs only after the conversions of the columns it compares |
| Frames.RuleSeesTyped | DataPoints/app.py:15-51 | each rule, evaluated at its point in the function, gives the same list as on fully parsed rows |
| Frames.ProcessFrame | DataPoints/app.py:14-51 | lines 14-51 as written, each rule evaluated on the frame as it stands at that point; the in-place column rewriting gives the same report as evaluating all six rules on fully parsed rows |
| Frames.FirstMissing | DataPoints/app.py:16-43 | no column is reported exactly when all are present; otherwise the first missing column in read order is reported |
| Frames.ProcessFile | DataPoints/app.py:12-60 | a missing column is a `KeyError` naming the first missing column the function reads, and there is no report; otherwise the report is the six rules on the parsed rows |
| Scenarios.OverdueFortyFiveFlagged | DataPoints/app.py:15-19 | "Overdue 45 days" is flagged by rule 1 |
| Scenarios.OverdueFortyFlagged | DataPoints/app.py:15-19 | "Overdue 40 days" is flagged by rule 1 |
| Scenarios.OverdueFiveNotFlagged | DataPoints/app.py:15-19 | "Overdue 5 days" is not flagged |
| Scenarios.OverdueWithoutNumberNotFlagged | DataPoints/app.py:17 | "Overdue" with no number reads as 0 days and is not flagged |
| Scenarios.OnTrackNotFlagged | DataPoints/app.py:16 | the example "On Track 45" is not flagged: it does not mention "Overdue", though its number is over 30 |
| Scenarios.OnlyFirstNumberCounts | DataPoints/app.py:17 | only the first number counts: "Overdue 5 of 40" is not flagged |
| Scenarios.PsvComparisons | DataPoints/app.py:24 | with both dates present, rule 2 flags the row if and only if the PSV date is strictly later; a NaT on either side is never flagged |
| Scenarios.SelectedBoundary | DataPoints/app.py:43 | rule 5 flags a date exactly 365 days before now but not one nanosecond later |
| Scenarios.SivReadyBoundary | DataPoints/app.py:49 | rule 6 flags a date exactly 90 days before now but not one nanosecond later |
| Scenarios.FlaggedTwoRows | DataPoints/app.py:15-19 | on a two-row table a rule lists the first row's identifier, then the second's, as each is flagged |
| Scenarios.TwoSiteTable | DataPoints/app.py:14-60 | sites 100 ("Overdue 40 days") and 200 ("SIV Ready" for 100 days) give rule 1 `[100]`, rule 6 `[200]` and empty lists elsewhere |
| Scenarios.MissingStatusAborts | DataPoints/app.py:43 | a table without "SITE STATUS" gives no report at all, not a report missing only rules 5 and 6 |

## Left out

- Loading the file (lines 7-10: `read_csv` / `read_excel`) is not modelled. The model starts from a loaded `Table`, and load errors are out of scope.
- The Streamlit user interface (lines 62-70) is not modelled. It only displays the dictionary.
- `datetime.today()` is the parameter `now`, because the clock is outside the model.
- `pd.to_datetime(..., errors='coerce')` is the parameter `parse`, which maps each raw cell to a date or to NaT on its own. pandas infers one date format per column, so a cell's result can depend on the other rows of that column; the model does not capture this. No proved property relies on per-cell parsing: they hold for any parser.
- Timezone-aware dates and the `TypeError` raised when they are compared with the naive `today` are not modelled. Neither are the limits of the pandas timestamp range.
- Text.ExtractedNumber: reads the digit run as an unbounded natural number rather than a float. For a comparison with 30 the two agree, except for digit runs too long for a float, which are not modelled.
- Text.IsDigit: `\d` matches only ASCII digits here. Python's `\d` also matches other Unicode decimal digits.
- The dictionary's key order (insertion order in Python) is not modelled: `AsDict` is a Dafny `map`, which has no order.
- `SITE NUMBER` is modelled as text. A numeric identifier is carried as its text form, and the float formatting pandas applies to a numeric column with gaps is not modelled.
- In `ACTIVATION COMPLETE` and `SITE STATUS`, a cell that is not text is read as absent. This matches rules 1, 5 and 6 for such cells. The `AttributeError` that `.str` raises on a column with no text at all (line 17) is not modelled.

# PollReader in Dafny

A model of `PollReader.py`, a reader for a CSV export of election polls.

**What the reader does.** A `PollReader` holds the lines of the file (`raw_data`) and six parallel lists in `data_dict`: 'month', 'date', 'sample', 'sample type', 'Harris result' and 'Trump result'. `build_data_dict` works through the lines:
- It skips the header line at index 0.
- It trims each line, splits it on commas and trims every field.
- It drops lines with fewer than six fields.
- For every other line it appends the month, `int(date)`, `int(sample)`, the sample type, `float(harris)` and `float(trump)` to the six lists, in that order.

`_to_float_pct` reads `"51%"` and `"0.51"` as the same fraction. `highest_polling_candidate` names the candidate with the highest single result and reports it as a percentage. Harris wins ties.

**The model**, in four modules plus `Options`:
- `Text` models Python's `str.strip()` and `str.split(',')` as functions, with lemmas about what they keep and drop. These include the split/join round trip in both directions.
- `Numbers` models `int()` and `float()` on decimal strings with exact integers and reals. Both accept:
  - surrounding whitespace, except the four ASCII separators U+001C to U+001F, which `str.strip()` removes but `int()` and `float()` do not skip
  - a sign
  - digit groups joined by single underscores
  - for `float()` only: the forms `5`, `5.`, `.5`, `5.5` and an exponent.

  Any other string gives `None`, where Python raises `ValueError`. The lemmas are round trips and exact values (`int(str(n)) == n`, `float("w.f")`).
- `PollData` holds the column store as a value, `Columns`, and the loop of `build_data_dict` as functions:
  - `ReadLine` splits and converts one line.
  - `Stage` makes the staged appends of one line.
  - `Run` and `RunLines` are the whole loop.

  Alongside these are independent reference definitions: `Accepted` (the indices of the lines that reach the appends) and `Readings` (what each of those lines parses to). The lemmas connect the loop to them: which lines are skipped, that the columns stay aligned, and file order. They also state exactly what a failed conversion leaves behind.
- `Reader` holds the class `PollReader`:
  - Its fields are `rawData` and the six columns.
  - `BuildDataDict` is a method that loops over the lines and appends in place. It is proved against `Run` and, through `RunLoads`, against the reference readings.
  - `_to_float_pct` becomes `ToFloatPct`, and `highest_polling_candidate` becomes `Highest`, with `MaxOf` for Python's `max`.

**What the code does at its edges:**
- `build_data_dict` reads the two results with plain `float` (PollReader.py:46-47), not with `_to_float_pct`. So a `%` in a result field is a conversion failure in the loader.
- A failed conversion leaves in place the appends made before it on the same line (PollReader.py:42-47). The code appends 'month' before it converts the date, so a non-numeric date raises with 'month' one entry longer than the other columns, and so on for each later field. `Stage`, `StageMeaning` and `RunFails` state this exactly.
- `_to_float_pct` trims with `str.strip()` before it looks for `%`, while `float` skips a slightly smaller set of whitespace. So `_to_float_pct` reads a value surrounded by U+001C to U+001F that `float` alone rejects; wherever `float(s)` succeeds, the two agree (`ToFloatPctAgrees`).
- `build_data_dict` and `highest_polling_candidate` sit at module level in the source file, although they take `self` (PollReader.py:34, 49). The model treats them as operations on the reader's state, as their bodies do.

## Model

| member | source | states |
|---|---|---|
| Text.Strip | PollReader.py:38 | `str.strip()`: drops the leading and trailing characters `str.isspace()` accepts; `StripSpec`, `StripKeeps`, `StripIdempotent` and `StripBlank` state what it keeps |
| Text.StripLeftSpec | PollReader.py:38 | leading-whitespace removal keeps a suffix of the input, removes only whitespace characters, and stops at a non-whitespace character |
| Text.StripRightSpec | PollReader.py:38 | trailing-whitespace removal keeps a prefix, removes only whitespace, and stops at a non-whitespace character |
| Text.StripSpec | PollReader.py:38 | `strip()` keeps one contiguous slice of the input with only whitespace around it, and neither end of the result is whitespace |
| Text.StripKeeps | PollReader.py:38 | a string whose two ends are not whitespace is unchanged by `strip()` |
| Text.StripIdempotent | PollReader.py:38 | stripping twice is the same as stripping once, so trimming each field after trimming the line changes nothing further at the ends |
| Text.StripBlank | PollReader.py:38 | a line of whitespace only strips to the empty string |
| Text.StripAppend | PollReader.py:29-30 | stripping `s` followed by a non-whitespace character only drops the leading whitespace of `s` |
| Text.StripAfterStripLeft | PollReader.py:38 | `strip()` after removing leading whitespace equals `strip()` of the original |
| Text.Split | PollReader.py:38 | `str.split(',')`: there is always at least one part; `SplitSpec`, `JoinSplit` and `SplitJoin` state what the parts are |
| Text.SplitSpec | PollReader.py:38 | `split(',')` gives one more part than there are commas (the empty string gives one empty part), and no part contains a comma |
| Text.JoinSplit | PollReader.py:38 | joining the parts of a split with the separator gives back the original string |
| Text.SplitJoin | PollReader.py:38 | splitting the join of comma-free parts gives back exactly those parts |
| Text.SplitNone | PollReader.py:38 | a string without the separator splits into itself alone |
| Text.JoinEndsNotSpace | PollReader.py:38 | joining parts that are empty or have no whitespace at their ends, with a non-whitespace separator, gives a string with no whitespace at its ends |
| Text.JoinEnds | PollReader.py:38 | a join of non-empty parts begins with the first part's first character and ends with the last part's last character |
| Numbers.IndexOfSpec | PollReader.py:46-47 | the search that finds the decimal point and the exponent marker of a float literal returns the first occurrence, or the length when there is none |
| Numbers.ParseInt | PollReader.py:43-44 | `int(s)`: the value of a signed, optionally underscore-grouped decimal string between skipped whitespace, else `None`; `ParseSignedDigits`, `ParseIntShowInt` and `SeparatorNotSkipped` state its values and failures |
| Numbers.ParseFloat | PollReader.py:46-47 | `float(s)`: the exact value of a decimal literal between skipped whitespace, else `None`; `ParseFloatDigits`, `ParseFloatDecimal` and `FloatTextEnds` state its values and the text it accepts |
| Numbers.SeparatorNotSkipped | PollReader.py:43-44 | a character U+001C to U+001F before digits makes `int()` fail, although `strip()` removes it |
| Numbers.TrimStripped | PollReader.py:38-47 | a field already trimmed by `strip()` is read whole by `int()` and `float()` |
| Numbers.StripFindsTrim | PollReader.py:29-32 | when the text `float` reads from `s` has no `isspace` character at its ends, `s.strip()` is exactly that text, and dropping the leading whitespace of `s` first does not change it |
| Numbers.FloatTextEnds | PollReader.py:46-47 | the text `float()` accepts, after its own trimming, is non-empty, has no whitespace at either end and ends in a digit or `.` |
| Numbers.ParseIntShowInt | PollReader.py:43-44 | `int(str(n)) == n` for every integer `n`, negative ones included |
| Numbers.ParseSignedDigits | PollReader.py:43-44 | `int()` of a digit string is its decimal value, and with a leading `-` it is the negation of that value |
| Numbers.ParseFloatDigits | PollReader.py:46-47 | `float()` of a digit string is its value, exactly |
| Numbers.ParseFloatDecimal | PollReader.py:46-47 | `float("w.f")` for digit strings is `w` plus `f` read as `len(f)` decimal places, exactly |
| Numbers.ShiftIsDivision | PollReader.py:46-47 | moving a value `k` decimal places is dividing it by `10^k` |
| PollData.Parts | PollReader.py:38 | the trimmed fields of the trimmed line; `ReadLine`, `BlankLineSkipped` and `PartsOfJoin` state how many there are and what they hold |
| PollData.ReadLine | PollReader.py:38-40 | a line reaches the appends exactly when its trimmed text holds at least five commas, that is six or more fields |
| PollData.KeptAfterHeader | PollReader.py:35-40 | the accepted indices are exactly the indices past the header whose line has six or more fields, each once, in increasing order |
| PollData.Stage | PollReader.py:42-47 | the six appends of one line, each conversion just before its append; `StageMeaning` states the outcome |
| PollData.Step | PollReader.py:36-47 | one turn of the loop: the header and short lines leave the columns alone, any other line runs `Stage`; `ShortLineSkipped` and `RunIgnoresHeader` state the skips |
| PollData.RunLines | PollReader.py:35-47 | the loop only appends to the columns, and a failure names a line past the header; `RunLoads` and `RunFails` state the whole outcome |
| PollData.Run | PollReader.py:35-47 | the loop over the file's lines, each read on its own; `HeaderIgnored` states it at the level of lines of text |
| PollData.StageMeaning | PollReader.py:42-47 | a line whose four conversions succeed appends exactly its poll to all six columns; otherwise the first bad field raises after the appends before it, so the columns before that field are one entry longer than the rest; each partial append holds the line's own month, date, sample, sample type or Harris result |
| PollData.AssembleFirstFailure | PollReader.py:43-47 | a line yields a whole poll exactly when date, sample, Harris and Trump all convert, with month and sample type taken as they are; otherwise it names the first of those four that fails |
| PollData.RunStaysFailed | PollReader.py:35-47 | once a conversion has raised, no later line is looked at |
| PollData.RunIgnoresHeader | PollReader.py:35-37 | the loop's result does not depend on the line at index 0 |
| PollData.HeaderIgnored | PollReader.py:35-37 | two files that differ only in their first line build the same columns, or fail in the same way |
| PollData.BlankLineSkipped | PollReader.py:38-40 | a blank line splits to one empty field and is skipped |
| PollData.ShortLineSkipped | PollReader.py:39-40 | a line with fewer than six fields leaves all six columns unchanged |
| PollData.ExtraFieldsIgnored | PollReader.py:42-47 | only the first six fields are read: lines that agree on those are read alike |
| PollData.PartsOfJoin | PollReader.py:38 | a line made by joining comma-free fields, each empty or neither starting nor ending with whitespace, splits back into exactly those fields (empty cells included) |
| PollData.ReadingsAt | PollReader.py:35-47 | there is one reference reading per accepted line, and the `j`-th reading is that of the `j`-th accepted line |
| PollData.RunLoads | PollReader.py:35-47 | from aligned columns, the build reaches the end exactly when every accepted line converts; then it has appended one poll per accepted line, in file order, and the columns stay aligned |
| PollData.BuildFromEmpty | PollReader.py:35-47 | a successful build from empty columns gives six columns of equal length, one entry per accepted line, and entry `j` of every column is the poll of the `j`-th accepted line |
| PollData.RunFailsAt | PollReader.py:35-47 | a failed build failed in the step for its line `k`, after the lines before `k` built without error |
| PollData.RunFails | PollReader.py:42-47 | a failed build stops at an accepted line whose reading names the failing field, after loading every earlier accepted line in full; the columns are exactly the polls of the earlier lines followed by that line's staged appends, so its month is the last entry of 'month' and the columns up to the failing field have one entry more than the others |
| Reader.ToFloatPct | PollReader.py:27-32 | `_to_float_pct`; `ToFloatPctAgrees`, `ToFloatPctPercent` and `PercentMatchesFraction` state its values |
| Reader.ToFloatPctAgrees | PollReader.py:29-32 | wherever `float(s)` succeeds, `_to_float_pct(s)` gives the same value |
| Reader.ToFloatPctPercent | PollReader.py:29-31 | a value followed by `%` is what `float` reads from the value without its leading whitespace, divided by 100; if that fails, so does the percent form |
| Reader.PercentAfterStrip | PollReader.py:29-31 | a value whose trimmed text is `t` followed by `%` reads as `float(t) / 100`, and fails when `float(t)` fails |
| Reader.PercentOfValue | PollReader.py:30-31 | any string that `float` reads as `v` gives `v / 100` with a `%` appended |
| Reader.PercentDigits | PollReader.py:30-31 | digits followed by `%` (`"51%"`) read as their value over 100 |
| Reader.FractionDigits | PollReader.py:32 | `0.` followed by two digits (`"0.51"`) reads as the two-digit value over 100 |
| Reader.FractionValue | PollReader.py:32 | `float("0.dd")` is the two-digit value `dd` over 100, exactly |
| Reader.PercentMatchesFraction | PollReader.py:27-32 | `"dd%"` and `"0.dd"` give the same fraction for any two digits `dd` |
| Reader.MaxOf | PollReader.py:52 | `max` of a non-empty list is one of its elements and no element exceeds it |
| Reader.Highest | PollReader.py:52-59 | the reported value is one of the named candidate's results times 100, and no result of either candidate times 100 exceeds it; Trump is named exactly when the reported value is above every Harris result times 100 (so ties go to Harris) |
| Reader.PollReader.constructor | PollReader.py:9-25 | a new reader holds the given lines and six empty columns |
| Reader.PollReader.BuildDataDict | PollReader.py:34-47 | the loop leaves the columns as `Run` does and reports the first failed conversion as (line, field). From aligned columns it succeeds exactly when every accepted line converts, and then it has appended one poll per accepted line in file order. The lines are unchanged |
| Reader.PollReader.AppendLine | PollReader.py:36-47 | one loop turn: the header and short lines leave the columns alone; any other line runs the staged appends of `Step` |
| Reader.PollReader.AppendFields | PollReader.py:42-47 | the six appends in column order, stopping after 'month', 'date', 'sample type' or 'Harris result' when the next conversion failed, as `Stage` states |
| Reader.PollReader.HighestPollingCandidate | PollReader.py:49-59 | applies `Highest` to the reader's 'Harris result' and 'Trump result' columns, which must both be non-empty |

## Left out

- File loading in `__init__` (PollReader.py:11-15): path joining, `open` and `readlines` are file-system I/O. The constructor takes the lines as a parameter.
- Floating point: `float()` is modelled with exact reals, with no rounding to IEEE doubles. Formatting the result with `:.1f` and `%` is not modelled, so `HighestPollingCandidate` returns a (candidate, value × 100) pair instead of a string.
- Numbers.ParseFloat: rejects `inf`, `infinity` and `nan` in any letter case, which Python's `float()` accepts, because such values have no exact real.
- Numbers.ParseInt: accepts only ASCII digits. Python's `int()` and `float()` also accept other Unicode decimal digits; those strings are read as failures here.
- Reader.PollReader.AppendLine: computes the four conversions of a line before making its appends, whereas the source converts each field just before appending it. The conversions change nothing, so the appends made and the error reported are the same. `AppendFields` keeps the source's order of appends and checks.
- Reader.PollReader.BuildDataDict: the `ValueError` that Python raises is returned as the line index and field position of the failed conversion. Its message is not modelled.
- `likely_voter_polling_average` and `polling_history_change`: the source only calls them (PollReader.py:62, 69, 99, 106, 120, 125) and never defines them, so there is nothing to model.
- The stray test methods at PollReader.py:61-73, the `unittest` cases and `main` (PollReader.py:76-135) are tests and console output. The expected numbers in the tests depend on `polling_data.csv`, which is not part of this model.
- Reader.Highest: Python's `max` raises `ValueError` on an empty list (PollReader.py:52). `MaxOf`, `Highest` and `HighestPollingCandidate` require non-empty columns instead of modelling that error.
- Numbers.ParseInt: no limit on the number of digits. Python 3.11 and later refuse by default to convert strings of more than 4300 digits with `int()`, a configurable limit; `ParseIntShowInt` holds here for every integer.
- Reader.ToFloatPctPercent: for a value with a trailing `%` the contract reads `float` of the value without its leading `str.strip()` whitespace, not `float` of the value as given. The two differ only when the leading whitespace of the value contains one of U+001C to U+001F, which `_to_float_pct` strips and `float` alone does not skip.
- The unused variable `top` at PollReader.py:53 has no effect and is not modelled.

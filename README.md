# Greece legends leaderboard extraction

`greek_legends.py` scrapes a player leaderboard page, compares every player's
trophies with yesterday's snapshot, and posts the lines to a Discord webhook.
This project models the logic the script runs between fetching and posting:

- the row loop (lines 42-80) that turns the page's table rows into
  - the player lines (`players`),
  - today's snapshot (`today_data`),
  - the set of tags already seen (`seen_tags`);
- the message body (line 89), which joins the player lines with newlines.

The loop skips a row that has fewer than three cells or no `#` in its second
cell's text. It takes the tag as the stripped text after the last `#`, and
skips a tag it has already seen. For any other row it reads:

- the rank: the first cell's text up to its first `.`;
- the name: the stripped text of the second cell's link;
- the trophies: the number formed by the digits of the third cell;
- the change since yesterday.

It then appends `"{rank}. {name} | {trophies}{change}"` and records the
trophies under the tag. It stops once 100 lines exist. Two rows abort the whole
run:

- a row whose second cell has no link (`find("a")` returns `None`);
- a row whose third cell holds no digit (`int("")` raises).

The model is built from five modules:

- `Results` (`results.dfy`): the `Option` and `Result` datatypes.
- `Text` (`text.dfy`): the string operations the script uses.
  - `str.strip` and `str.isspace`.
  - The last piece of `split("#")` and the first piece of `split(".")`.
  - The digit filter.
  - `str.join`, with `str.split` as its inverse.
- `Decimal` (`decimal.dfy`): `int(s)` on digit strings and `str(n)`, and how
  they invert each other.
- `Leaderboard` (`leaderboard.dfy`): the loop itself.
  - The abstract rows and cells.
  - The per-row pieces: filters, tag, rank, name, trophies, change indicator and line.
  - `Step` and `Run`, the loop body and the loop as functions.
  - `VisitRow` and `ExtractLeaderboard`, the loop body and the loop as
    imperative methods proved equal to `Step` and `Run`.
- `Selection` (`selection.dfy`): a loop-free description of what the loop
  selects, proved equal to `Run`.
  - The selection is the first row with each tag among the rows that pass the
    filters, in page order, cut off after 100.
  - From that equality follow the uniqueness, ordering, bound,
    snapshot-consistency, skip and failure properties.

The HTML parser is abstracted. A row is the list of its `td` cells. A cell is
the list of text strings the parser finds in it, together with the text
strings of its first `a` element when there is one. The parser calls are then
written out on those strings:

- `get_text(sep, strip=True)` strips every string, drops the empty ones and
  joins the rest with `sep`.
- `.text` joins a link's strings with no separator.

The rank is the page's own rank text (the first cell up to its first `.`), not
the row's position in the output. A row whose first cell holds no `.` gives its
whole text as the rank. This follows the code.

## Model

| member | source | states |
|---|---|---|
| Leaderboard.ExtractLeaderboard | greek_legends.py:42-80 | the loop's outcome on a page is `Run` of its rows: the lines, today's snapshot and the seen tags after the last row or the 100th line, or the error of the row that aborts the run; yesterday's snapshot is only read |
| Leaderboard.VisitRow | greek_legends.py:47-77 | one pass of the loop body equals `Step`: it skips a short row, a row without `#` and a row with a seen tag, aborts on a missing link before a missing number, and otherwise appends the line, records the trophies and marks the tag as seen |
| Leaderboard.Run | greek_legends.py:42-80 | a run that does not abort has at most 100 lines, as many snapshot entries as lines, and snapshot keys that are exactly the seen tags |
| Leaderboard.RunSettled | greek_legends.py:79-80 | once the run has aborted or holds 100 lines, later rows do not change the outcome |
| Leaderboard.RunNext | greek_legends.py:46-80 | one more row applies the loop body to the state so far, as long as that state is not final |
| Leaderboard.StepSkips | greek_legends.py:47-57 | a row with fewer than three cells, without `#` in its second cell, or with a seen tag leaves the state unchanged |
| Leaderboard.StepReads | greek_legends.py:56-77 | every other row is read |
| Leaderboard.StepSeen | greek_legends.py:56-58 | a step that does not abort adds the row's tag to the seen tags, when the row passed the filters, and nothing else |
| Leaderboard.EntryOf | greek_legends.py:55-77 | a row that is read carries the tag found in its second cell |
| Leaderboard.EntryOutcome | greek_legends.py:61-64 | reading a row fails exactly when its second cell has no link or its third cell has no digit; a missing link is reported first; a row that is read carries the number parsed from its third cell |
| Leaderboard.EntryAccepted | greek_legends.py:60-77 | a row with a link and a number yields the line made of the rank, a dot, the name, a bar, the trophies and the change indicator |
| Leaderboard.TagShape | greek_legends.py:55 | the tag holds no `#`, has no surrounding whitespace, and is no longer than the text it came from |
| Leaderboard.TagFollowsLastHash | greek_legends.py:55 | whatever precedes the last `#`, the tag is exactly the trimmed text after it |
| Leaderboard.ParseTrophiesFails | greek_legends.py:63-64 | parsing the trophies fails, with `NoDigits`, exactly when the text holds no digit character |
| Leaderboard.CellDigits | greek_legends.py:63-64 | the digits read from a cell are the digits of all of its strings, in order; stripping loses none |
| Leaderboard.FragmentDigits | greek_legends.py:63 | stripping the strings of a cell and dropping the empty ones keeps its digits in order |
| Leaderboard.StripDigits | greek_legends.py:63-64 | stripping a string keeps all of its digits |
| Leaderboard.JoinEmptyAppend | greek_legends.py:63 | joining with the empty separator appends the next string directly |
| Leaderboard.JoinEmptyLast | greek_legends.py:63 | joining with the empty separator is the join of all strings but the last, followed by the last |
| Leaderboard.PrintedTrophiesReadBack | greek_legends.py:64 | a trophy count printed on a line reads back as the same count |
| Leaderboard.Delta | greek_legends.py:67-68 | there is a difference exactly when yesterday's snapshot has the tag, and then yesterday's value plus it is today's trophies |
| Leaderboard.Change | greek_legends.py:66-74 | the indicator is empty exactly when the tag is missing from yesterday's snapshot, and otherwise starts with a space |
| Leaderboard.ChangeInjective | greek_legends.py:66-74 | two differences with the same indicator are equal: gain, loss and no change are told apart, and so are their sizes |
| Leaderboard.LineDeterminesScore | greek_legends.py:76 | for a given rank and name, the line determines both the trophies and the difference |
| Leaderboard.NumberThenSpace | greek_legends.py:76 | the printed trophies followed by an indicator, which is empty or starts with a space, split in only one way |
| Leaderboard.DescriptionSplitsBack | greek_legends.py:89 | the message body splits at newlines back into the player lines, when there is a line and no line holds a newline |
| Selection.RunReadsWindow | greek_legends.py:42-80 | the loop's outcome is the outcome of reading, in page order and without skipping, the first row with each tag among the rows passing the filters, up to 100 of them |
| Selection.RunIsScan | greek_legends.py:46-80 | the loop over rows is the loop over what it sees of each row (nothing, or a tag and the outcome of reading the row) |
| Selection.StepView | greek_legends.py:47-77 | the loop body on a row depends only on what it sees of the row: nothing for a row failing the filters, else its tag and the outcome of reading it |
| Selection.SelectedEntry | greek_legends.py:47-77 | every selected row passes the filters, and what the selection reads there is what reading that row gives |
| Selection.WindowEntriesTagged | greek_legends.py:56-77 | the entries read from the selection carry the selected rows' tags, which are pairwise distinct |
| Selection.ScanReadsWindow | greek_legends.py:46-80 | on views, the loop's outcome is reading the first view of each tag, up to 100 |
| Selection.ScanReadsWindowNext | greek_legends.py:46-80 | that equality survives one more view |
| Selection.WindowEntriesNext | greek_legends.py:56-80 | one more view adds its entry to what the selection reads exactly when it is the first with its tag and fewer than 100 are selected |
| Selection.ScanSeen | greek_legends.py:56-58 | a loop still reading has seen exactly the tags met so far |
| Selection.RunSeen | greek_legends.py:56-58 | a run still reading has seen exactly the tags of the rows that passed the filters so far |
| Selection.ExtractionSelects | greek_legends.py:46-80 | a run that does not abort has one line per selected row; every selected row passes the filters and no earlier qualifying row has its tag |
| Selection.ExtractionComplete | greek_legends.py:46-58 | every qualifying row that is the first with its tag is among the candidates, of which the first 100 are selected |
| Selection.ExtractionLines | greek_legends.py:76 | line k of a run that does not abort is the line read from the k-th selected row |
| Selection.ExtractionSnapshot | greek_legends.py:77 | today's snapshot maps the tag of every selected row to the trophies read from it, and its keys are the seen tags |
| Selection.ExtractionSeen | greek_legends.py:56-58 | every seen tag of a run that does not abort is the tag of a selected row |
| Selection.ExtractionFailure | greek_legends.py:61-64 | a run aborts exactly when one of the selected rows cannot be read; other rows never abort it |
| Selection.ExtractionFirstError | greek_legends.py:61-64 | an aborted run carries the error of the first selected row that cannot be read |
| Selection.SkipMalformed | greek_legends.py:47-53 | inserting a row with fewer than three cells or without `#` anywhere leaves the outcome unchanged |
| Selection.SkipDuplicate | greek_legends.py:56-57 | inserting a qualifying row after another with the same tag leaves the outcome unchanged: the first occurrence wins |
| Selection.StopsWhenFull | greek_legends.py:79-80 | once 100 lines exist, or the run aborted, appending rows changes nothing |
| Selection.ViewsAppend | greek_legends.py:46-58 | what the loop sees of two stretches of rows is what it sees of each, one after the other |
| Selection.ScanSnoc | greek_legends.py:46-80 | one more view applies the loop body unless the loop is already final |
| Selection.ScanSameAfter | greek_legends.py:46-80 | two view prefixes with the same outcome keep the same outcome under any continuation |
| Selection.Firsts | greek_legends.py:56-58 | the positions that are first with their tag, each exactly once, in increasing order |
| Selection.Window | greek_legends.py:79-80 | at most 100 of those positions, first ones first |
| Selection.WindowDistinct | greek_legends.py:56-58 | the selected positions have pairwise distinct tags |
| Selection.WindowSnapshot | greek_legends.py:77 | reading the selection without aborting records each selected tag's trophies; the snapshot keys are the seen tags |
| Selection.WindowSeen | greek_legends.py:58 | every tag seen while reading the selection is a selected tag |
| Selection.FoldLines | greek_legends.py:76 | reading entries without aborting gives one line per entry, in order |
| Selection.FoldSeen | greek_legends.py:56-77 | reading entries without aborting keys the snapshot by exactly the seen tags, which are the entries' tags |
| Selection.FoldToday | greek_legends.py:77 | with distinct tags, each tag maps to its entry's trophies |
| Selection.FoldFailure | greek_legends.py:61-64 | reading entries aborts exactly when one failed, with the error of the first failed one |
| Text.StripTrimmed | greek_legends.py:55 | `str.strip()` leaves no whitespace at either end and never grows the text |
| Text.TrimStartShape | greek_legends.py:55 | trimming the front removes a run of whitespace and stops at the first other character |
| Text.TrimEndShape | greek_legends.py:55 | trimming the back removes a run of whitespace and stops at the last other character |
| Text.TrimStartSpaces | greek_legends.py:55 | whitespace in front of a text that starts with another character is removed and nothing more |
| Text.TrimEndSpaces | greek_legends.py:55 | whitespace behind a text that ends with another character is removed and nothing more |
| Text.StripKeepsMiddle | greek_legends.py:55 | the stripped text is a run of the original with only whitespace around it |
| Text.StripSurrounded | greek_legends.py:55 | stripping removes exactly the surrounding whitespace of a trimmed text |
| Text.StripIdempotent | greek_legends.py:55 | stripping twice is stripping once |
| Text.AfterLastShape | greek_legends.py:55 | `split("#")[-1]` is a suffix of the text, preceded by `#` when it is not the whole text |
| Text.AfterLastFree | greek_legends.py:55 | `split("#")[-1]` holds no `#` |
| Text.AfterLastSeparator | greek_legends.py:55 | what follows the last separator does not depend on what precedes it |
| Text.BeforeFirstShape | greek_legends.py:60 | `split(".")[0]` is a prefix of the text with no `.`, followed by `.` when it is not the whole text |
| Text.BeforeFirstSeparator | greek_legends.py:60 | what precedes the first separator does not depend on what follows it |
| Text.DigitsShape | greek_legends.py:64 | the digit filter yields only digits and never grows the text |
| Text.DigitsOfDigits | greek_legends.py:64 | a text of digits passes the filter whole |
| Text.DigitsOfSpace | greek_legends.py:64 | a text of whitespace leaves nothing |
| Text.DigitsEmpty | greek_legends.py:64 | the filter leaves nothing exactly when the text holds no digit |
| Text.DigitsAppend | greek_legends.py:64 | the filter distributes over concatenation, so digit order is kept |
| Text.JoinSplit | greek_legends.py:89 | joining the pieces of a split gives back the text |
| Text.SplitJoin | greek_legends.py:89 | splitting a join gives back its parts when no part holds the separator |
| Text.SplitPieces | greek_legends.py:89 | no piece of a split holds the separator |
| Text.SplitAppend | greek_legends.py:89 | a separator and a separator-free text add exactly one piece |
| Text.SplitNoSeparator | greek_legends.py:89 | a text without the separator is one piece |
| Text.JoinSnoc | greek_legends.py:89 | joining one more part adds the separator and that part |
| Decimal.ToDecimal | greek_legends.py:66-76 | `str(n)` is a non-empty string of digits |
| Decimal.ToDecimalShape | greek_legends.py:66-76 | `str(n)` has no leading zero except in "0", and is one digit long exactly when n < 10 |
| Decimal.ValueOfDecimal | greek_legends.py:64-76 | `int(str(n)) == n` |
| Decimal.DecimalOfValue | greek_legends.py:64-76 | `str(int(ds)) == ds` for a digit string without leading zeros |
| Decimal.ValuePositive | greek_legends.py:64 | a numeral whose first digit is not zero is positive |
| Decimal.ValueLeadingZero | greek_legends.py:64 | leading zeros do not change the number |
| Decimal.DecimalInjective | greek_legends.py:76 | different numbers print differently |

## Left out

- The HTTP fetch and the webhook post (lines 36-37, 98-100) are network I/O and are left out.
- HTML parsing with BeautifulSoup is left out (lines 38-40, 47, 51, 61). The rows and cells the parser would produce are the model's input, as described above.
- Reading and writing `previous_day.json` (lines 30-33, 83-84) is file I/O and is left out.
  - Yesterday's snapshot is an input map; today's is part of the output state.
  - A snapshot value that is not an integer is not modelled.
- The Greece-time title and footer, the embed colour, the environment lookup and the `print` calls (lines 8, 12, 22-27, 87-96) are left out. They depend on the clock, time zone data and the environment.
- Text.IsDigit: Python's `str.isdigit` also accepts non-ASCII digits, and `int` accepts some of them. The model accepts only `0`-`9`.
- Decimal.Value: Python refuses to parse integers of more than 4300 digits by default. That limit is not modelled.
- The loop state: `players`, `today_data` and `seen_tags` are one value threaded through the loop rather than three variables. The loop updates all three together.
- The stop test: the script checks the 100-line limit after appending a line, while `Run` checks it before reading the next row. The two agree because the limit is positive.

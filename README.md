# apeboard transaction scraper: a verified model of its decision logic

The scraper in `main.py` drives a browser over an ApeBoard wallet page. It
reads two things off that page: a summary panel of label/value pairs, and a
transaction table whose rows become records keyed by the column headers. It
also turns user-typed date strings such as `"05 Mar 23, 2:30 pm"` into
`datetime` values. This project models the logic that makes decisions:

- `convert_str_to_dt` and its month table `MONTH_NAME_TO_INT`
  (`date_parser.dfy`). There are three outcomes, kept apart:
  - a stage fails, prints a message and returns `None` (`Failed(stage)`);
  - `datetime(...)` accepts the fields (`Converted(dt)`);
  - every stage passes but `datetime(...)` raises (`Raised`).
- The string part of `process_hash_link`: the hash is the piece after the
  link's last `/` and before the first `?` (`page.dfy`).
- `parse_metadata`'s dict comprehension from span labels to h3 values,
  where a later label wins (`metadata.dfy`).
- `parse_table`'s nested loops (`table.dfy`):
  - one record per row, in row order;
  - cell `i` is stored under `headers[i]`;
  - the header's lower-cased text picks one of five record shapes;
  - the transfer branch appends one entry per anchor;
  - the first exception ends the whole table.

The Python string behaviour these depend on is in `strings.dfy`:
`split(sep)`, `split()`, `lower()`, `strip()` and `int()`. The two
accumulations (a list appended to in order, and a dict assigned key by key,
both ending at the first exception) are in `folds.dfy`.

Page elements come in as already-read data. A `Cell` holds:
- its anchors in document order;
- its optional `.//div/div` block;
- the optional `<p>` text;
- the two optional gas-fee elements.

A `MetaBlock` holds the optional span and h3 texts. An element that
`find_element*` would not find is `None`. Each exception that escapes
becomes a `PageError`.

As written, the month table is 0-based, so `datetime` gets each month one
early:
- `feb` gives January, and a result is never in December.
- An input naming January never converts (`DateParser.JanuaryRaises`).
- `dec` gives November, so "31 Dec 23, 11:59 pm" raises
  (`DateParser.DecemberThirtyFirstRaises`).
- The hour 23 for "11:59 pm" shows only on a date that exists
  (`DateParser.ElevenFiftyNinePm`).

This is the first entry under "## Findings", and the pm hour is the
second. Each comes with a corrected version whose intended property is
proved.

`parse_table` works step by step, so `Table.ParseTable` is a method with
two nested loops. Each loop's invariant ties the list or dict built so far
to a fold over a prefix of the rows or cells. The other pieces are
expressions and comprehensions, so they are functions, with lemmas about
them.

## Model

| member | source | states |
|---|---|---|
| Strings.Lower | main.py:43 | `lower()` keeps the length and maps each character to its lower-case form (ASCII letters only) |
| Strings.LowerIdempotent | main.py:43 | lower-casing twice is lower-casing once |
| Strings.IndexOf | main.py:34 | the result is an occurrence of the separator, and no occurrence lies before it; `None` only when there is none at all |
| Strings.Split | main.py:34 | `s.split(sep)` (also at lines 53 and 72) always gives at least one piece; each cut is at the leftmost remaining occurrence that `IndexOf` finds |
| Strings.JoinSplit | main.py:34 | joining the pieces of `s.split(sep)` with `sep` gives back `s` |
| Strings.SplitPiecesFree | main.py:34 | no piece of `s.split(sep)` contains `sep` |
| Strings.SplitUnique | main.py:34 | for a separator that does not overlap itself, any pieces free of it that join back to `s` are exactly `s.split(sep)`, so `JoinSplit` and `SplitPiecesFree` determine the pieces |
| Strings.SourceSeparators | main.py:34 | the separators split on at lines 34, 53 and 72 (`", "`, `":"`, `"/"`, `"?"`) do not overlap themselves, so `SplitUnique` applies to each |
| Strings.SplitAround | main.py:53 | `(a + sep + b).split(sep) == [a, b]` when the separator's first character is in neither side |
| Strings.LastPiece | main.py:72 | `s.split(c)[-1]` is the suffix of `s` after its last `c`: it holds no `c` and is preceded by `c` unless it is all of `s` |
| Strings.FirstPiece | main.py:72 | `s.split(c)[0]` is the prefix of `s` before its first `c`: it holds no `c` and is followed by `c` unless it is all of `s` |
| Strings.LeadingRun | main.py:35 | the length of the run of non-whitespace at the start: every character before it is non-whitespace, the one at it is whitespace |
| Strings.SplitWs | main.py:35 | every token of `split()` is non-empty and holds no whitespace |
| Strings.SplitWsCovers | main.py:35 | `split()` loses only whitespace: `s` is the tokens interleaved with gaps that are all whitespace, a non-empty gap between any two neighbouring tokens |
| Strings.SplitWsJoin | main.py:35 | `" ".join(words).split() == words` for non-empty whitespace-free words |
| Strings.SkipSpaces | main.py:112 | the first non-whitespace position from `i` on, everything skipped being whitespace |
| Strings.SkipSpacesBack | main.py:112 | the last non-whitespace boundary before `j`, everything skipped being whitespace |
| Strings.Strip | main.py:112 | `strip()` is a slice `s[i..j]` with only whitespace outside it and non-whitespace at both of its ends |
| Strings.StripUnique | main.py:112 | any slice with that property is `strip()`'s result, so `strip()` removes exactly the surrounding whitespace |
| Strings.ParseInt | main.py:39 | `int()` gives a value exactly when the token is a non-empty run of ASCII digits, optionally after a single `+` or `-`; the value is the digits' decimal value, negated after `-` |
| Strings.ParseIntOfDigits | main.py:39 | a non-empty run of ASCII digits always parses, to its decimal value |
| Strings.NatToString | main.py:39 | the reference inverse of the `int()` at that line: `str(n)` is a non-empty run of digits, and `NatToStringRoundTrip` pairs the two |
| Strings.NatToStringRoundTrip | main.py:39 | `int(str(n)) == n` |
| Strings.SignedRoundTrip | main.py:39 | `int("-" + str(n)) == -n` and `int("+" + str(n)) == n` |
| Strings.DigitsValueAppend | main.py:47 | the value of `p + t` is `p`'s value times 10^len(t) plus `t`'s value |
| Strings.ParseIntPrefixed | main.py:47 | digits written after a non-empty run of digits parse to the run's value shifted left plus their own |
| Page.HashOf | main.py:72 | the hash sits right after the link's last `/` and runs to the first `?` after that, or to the end; it contains neither `/` nor `?` |
| Page.HashUnique | main.py:72 | any string sitting where that description says is the hash, so the description fixes it |
| Page.PlainLinkIsItsHash | main.py:72 | a link with neither `/` nor `?` is its own hash |
| Page.ProcessHashLink | main.py:70-72 | succeeds exactly when there is an anchor and the first one has an `href`; otherwise the wait times out or `None.split` raises; on success the second component is the `href` unchanged and the first is its hash |
| Folds.CollectStep | main.py:115 | appending one more value extends the list built so far |
| Folds.CollectSpec | main.py:80-115 | the list is built exactly when every outcome is a value, and then holds those values, one per outcome, in order |
| Folds.CollectFirstFailure | main.py:80-115 | when outcomes fail, the exception that escapes is the first one |
| Folds.AssembleStep | main.py:84-114 | assigning one more entry extends the dict built so far |
| Folds.AssembleOk | main.py:83-114 | the dict is built exactly when every entry is a value |
| Folds.AssembleFirstFailure | main.py:83-114 | the exception that escapes is the first one |
| Folds.AssembleKeys | main.py:63-66 | the dict's keys are exactly the entries' keys |
| Folds.AssembleLastWins | main.py:63-66 | under each key the dict holds the value of the last entry with that key |
| Folds.AssembleFrom | main.py:83-114 | every value in the dict is the value of some entry under the same key |
| Metadata.BlockEntry | main.py:63 | a block gives its (span text, h3 text) pair exactly when it has both; otherwise `find_element` raises |
| Metadata.ParseMetadata | main.py:61-67 | no panel within the wait is a timeout; otherwise the map is built exactly when every block has both a span and an h3 |
| Metadata.Entries | main.py:63-66 | the comprehension succeeds exactly when every `<div>` in the panel has both a span and an h3; otherwise `find_element_by_tag_name` raises NoSuchElement |
| Metadata.IncompleteFails | main.py:63 | a block lacking either part makes the comprehension raise NoSuchElement |
| Metadata.EntriesKeys | main.py:63-66 | the map's keys are exactly the blocks' span labels |
| Metadata.EntriesLastWins | main.py:63-66 | each label maps to the h3 text of the last block that carries that label |
| Metadata.FirstIncomplete | main.py:63-66 | the first block lacking a span or an h3 |
| Metadata.DuplicateLabelKeepsLater | main.py:63-66 | two blocks with the same label give a one-entry map holding the later value |
| Table.ColumnOf | main.py:85-110 | the header selects the date, interaction, transfer or gas-fee branch exactly when its lower-cased text is "date", "interacted with", "transfer" or "gas fee"; any other header selects the `.//p` branch |
| Table.ColumnIgnoresCase | main.py:85-110 | a header and its lower-cased form select the same branch |
| Table.StrippedText | main.py:111-114 | a missing `<p>` gives `None`; a present one gives its text with the surrounding whitespace stripped |
| Table.CellAt | main.py:84-114 | a cell past the last header raises IndexError; otherwise the cell raises exactly when its branch does, and a value has the shape the header selects |
| Table.TransfersOf | main.py:99-102 | one transfer per anchor, in anchor order, with the anchor's text and `href`; no anchors give the empty list |
| Table.CollectTransfers | main.py:99-102 | the transfer branch's loop builds exactly that list |
| Table.CellValue | main.py:85-114 | a value always has the shape of the branch the header selects; a cell raises exactly when its branch needs an element or a hash link the cell lacks |
| Table.CellErrors | main.py:85-106 | the exception raised: a date cell's is its hash link's; an interaction cell without its `.//div/div` block raises NoSuchElement before its link is read; a gas-fee cell lacking a fee element raises NoSuchElement |
| Table.CellContents | main.py:85-114 | what each shape holds: the first anchor's hash and link; the optional `<p>` text (`None` when missing) of the interaction block; the anchors as transfers; the two fee texts and the dollar element's title; the stripped `<p>` text, `None` when missing |
| Table.ReadCell | main.py:84-114 | the inner loop's body gives the value of the branch the lower-cased header selects |
| Table.CellEntry | main.py:84-114 | cell `i` is stored under `headers[i]`, with the value its branch gives, and raises what that branch raises |
| Table.ParseTable | main.py:75-115 | no header row within the wait is a timeout; otherwise the result is the fold over rows of the fold over cells: one record per row in order, or the first exception |
| Table.RowFails | main.py:80-115 | once the earlier rows and cells succeed, a raising cell's exception escapes from the whole table |
| Table.RowRecord | main.py:81-114 | a row gives a record exactly when it has no more cells than there are headers and no cell raises |
| Table.EntriesSucceed | main.py:83-114 | every step of the inner loop gives a value exactly when no cell lies past the headers and none raises |
| Table.RowKeys | main.py:83-84 | a record's keys are exactly the headers at the row's cell positions |
| Table.RowShapes | main.py:84-114 | each value in a record has the shape that its key's lower-cased text selects |
| Table.RowLastWins | main.py:83-114 | under a header that repeats, the record keeps the value of the last cell with that header |
| Table.FirstCellError | main.py:83-114 | a row raises what its first raising cell raises |
| Table.TableOf | main.py:79-115 | the table is built exactly when every row gives a record; it then holds one record per row, in row order, each the record of its row |
| DateParser.MonthTableInCalendarOrder | main.py:12-23 | the table's keys are exactly the twelve abbreviations, and the one at calendar place `k` (counting from 0) maps to `k` |
| DateParser.MonthIndex | main.py:12-23 | the table is defined on exactly the twelve abbreviations, in any letter case, and maps each to its 0-based place in the calendar |
| DateParser.ConvertStrToDt | main.py:32-58 | it fails exactly when a parse stage fails; a converted value is a valid datetime whose month is never December, parsed from a month index of at least 1 |
| DateParser.ParseFields | main.py:33-55 | when every stage passes, the string had two ", " sections, three date words and a time section the time stage accepts with the same clock, and the month index is 0..11 |
| DateParser.ParseTime | main.py:50-55 | the time stage passes exactly when the section has two words, the marker is am/pm in any case and the clock is two integers around one ':'; the pm flag is set exactly for "pm" |
| DateParser.DaysInMonth | main.py:58 | `datetime`'s day bound: 28 to 31 days, 31 exactly in the long months, and 29 in February exactly in a leap year |
| DateParser.NewDateTime | main.py:58 | `datetime(...)` gives exactly the fields it is passed when they are in range, and raises otherwise |
| DateParser.MalformedFails | main.py:34-55 | no value when the string does not split into two sections on ", ", or the date section is not three words, or the time section is not two words, or the marker is not am/pm, or the clock is not two integers around a single ':' |
| DateParser.YearToken | main.py:46-49 | `int("20" + t)` is an integer exactly when `t` is all digits, so a sign gives no value; a two-digit `t` gives 2000 + t |
| DateParser.TwoDigitYear | main.py:47 | `int(f'20{t}')` of a two-digit `t` is 2000 + t |
| DateParser.ClockTime | main.py:50-55 | the time stage on "<hour>:<minute>" and a marker succeeds exactly when the marker is am/pm in any case and both parts are integers; it yields them and whether the marker is pm |
| DateParser.ReadsFields | main.py:33-57 | on a string that reads as its tokens, the first token that does not convert decides the failure (day, month, year, time, in that order); otherwise the stages yield the day, the month index, 20·10^len(year) + year, the hour, the minute and the pm flag |
| DateParser.LayoutPieces | main.py:34-35 | the ", " split and both whitespace splits cut "<day> <month> <year>, <hour>:<minute> <marker>" back into its tokens |
| DateParser.LayoutReads | main.py:34-35 | that text reads as its tokens |
| DateParser.ReadsParses | main.py:38-57 | on a readable string every stage succeeds, with the tokens' values |
| DateParser.ConvertParsed | main.py:56-58 | once the stages succeed, the constructor gets the 0-based month index and the hour plus 12 after pm; the result is that datetime exactly when it is in range, and otherwise `datetime` raises |
| DateParser.JanuaryRaises | main.py:43-58 | any readable date naming January raises (month 0) |
| DateParser.MonthOneEarly | main.py:43-58 | any other month converts, if at all, to the calendar month before the one named |
| DateParser.DecemberThirtyFirstRaises | main.py:43-58 | "31 Dec ..." always raises: the constructor is given November |
| DateParser.ElevenFiftyNinePm | main.py:56-58 | "11:59 pm", if it converts, has hour 23 and minute 59 |
| DateParser.NoonRaises | main.py:56-58 | "12:xx pm" always raises (hour 24) |
| DateParser.MidnightBecomesNoon | main.py:56-58 | "12:xx am", if it converts, has hour 12 |
| DateParser.ConvertStrToDtIntended | main.py:32-58 | the corrected parser fails exactly when a stage fails, and a converted value is a valid datetime |
| DateParser.IntendedConverts | main.py:43-58 | the corrected parser converts every parse that names a real calendar date and a 12-hour reading, with the 1-based month and the 24-hour hour |
| DateParser.DialHour | main.py:56-57 | the corrected hour is on a 24-hour clock, at the same place on the dial, on the side of noon that the marker says |

## Left out

- Selenium is not modelled. This covers `get_driver`, `driver.get`, the `execute_script` scroll, the `WebDriverWait` polling and the `find_element*` lookups. Those are browser I/O. Their outcomes are inputs instead: an element is present (`Some`) or missing (`None`), and a wait that finds nothing becomes `WaitTimedOut`.
- Elements that appear during a wait, and the ten- and five-second timeouts, are not modelled; they depend on timing.
- `.text` and `get_attribute` are taken as the strings the browser reports.
- `Table.ParseTable` returns the list of records. The source writes that list as JSON to `response.json` (main.py:116-117) and returns `None`. JSON encoding and file I/O are not part of this model.
- A Python `dict` keeps insertion order, which only shows in that JSON. A `Record` is a `map`, so records say which keys they hold and not in what order.
- `get_data`, `main`, `load_dotenv`, `os.getenv` and the `input()` prompts are left out. They are environment and console I/O and make no decisions.
- The `print` diagnostics are left out. A printed failure is the `Failed(stage)` outcome, with the stage that printed.
- `datetime` is modelled only as its range checks: the year 1..9999, the month 1..12, the day within the month (Gregorian leap years), the hour 0..23 and the minute 0..59. Time zones and the seconds and microseconds fields are not modelled.
- Strings.Lower: Unicode case mapping is not modelled: only ASCII letters are lowered, because the month names and header names it compares against are ASCII.
- Strings.ParseInt: only an optional sign followed by ASCII digits is modelled. `int()` also accepts underscores between digits, non-ASCII decimal digits and surrounding whitespace. The tokens here come from `split()` and have no whitespace; the other two forms are not modelled. Nor is the limit on the length of integer strings that CPython 3.11 and later (and the 2022 security releases of earlier versions) enforce: by default `int()` raises ValueError on more than 4300 digits. There, a 4301-digit day gives `Failed(Day)`, while the model converts it to a day that `datetime` rejects (`Raised`).
- Assertions are taken as enabled. The am/pm check at main.py:52 is an `assert`, which `python -O` removes; under `-O` a marker other than am/pm would pass that stage and be read as am. The model keeps the check.

## Findings

| source | as written | input that shows it | evidently intended | confidence | as-written member | corrected member |
|---|---|---|---|---|---|---|
| main.py:12-23 | `MONTH_NAME_TO_INT` maps `jan`..`dec` to 0..11, and line 58 passes this index to `datetime` as the month | "05 Jan 23, 2:30 pm" raises (month 0); "05 Mar 23, 2:30 pm" gives February; "31 Dec 23, 11:59 pm" raises (31 November) | months 1..12, so that the named month is the month converted | high (not executed) | DateParser.JanuaryRaises | DateParser.IntendedConverts |
| main.py:56-57 | "pm" adds 12 to every hour, and "am" never changes it | "05 Mar 23, 12:30 pm" raises (hour 24); "05 Mar 23, 12:30 am" gives 12:30 | the 12-hour convention: 12 am is hour 0, 12 pm is hour 12 | high (not executed) | DateParser.NoonRaises | DateParser.DialHour |

# SG Toto analyzer: a verified model of its core

The SG Toto analyzer keeps an archive of Singapore Toto draws in a MongoDB
collection and answers frequency questions about it from the command line.
This project models that core in Dafny:

- **Range option.** `--range` of `topnum` is parsed into an optional start date and an optional end date.
  - The preferred form is `START:END`.
  - `START:` and a bare `START` leave the end open.
  - A legacy form without a colon is cut at fixed offsets.
  - Any failure is the one `click.BadParameter` message.
  - Dates follow CPython's `strptime` for `%Y-%m-%d`.
- **`topnum`.** The draws are filtered by the range, with the end bound at 23:59 of the end date. The drawn numbers of the remaining draws are then exploded, counted with `value_counts()` and cut with `head(num)`.
- **`combination`.** Each draw's numbers are sorted into a tuple. The tuples are counted and the three most frequent are shown.
- **`groupfreq`.**
  - `--group-size` must be in 2..6.
  - Every `g`-combination of every draw's sorted numbers is collected in nested loops.
  - The combinations are counted and formatted as `"a, b, c"`; the first `top` are shown.
- **Scheduled sync.** The first row of the results page becomes a document.
  - Each cell is stripped and converted; any failure gives no document.
  - The document is inserted unless a document with the same date is stored.
  - `read_root` answers "Success" or "Failed".
- **CSV ingestion.** Every row of the results file is converted.
  - All documents are inserted with one `insert_many` when there are any.
  - A row that does not convert ends the run before anything is inserted.

## Layout

| file | module | what it holds |
|---|---|---|
| wrappers.dfy | Wrappers | `Option`, `Result` |
| text.dfy | Text | Python's `str.strip`, `str.split` for one character, `", ".join`, `int()` and `str()` on integers |
| calendar.dfy | Calendar | dates, the Gregorian calendar, `strptime(..., "%Y-%m-%d")`, the canonical `YYYY-MM-DD` text, instants |
| date_range.dfy | DateRange | `parse_date_range` |
| combinatorics.dfy | Combinatorics | `sorted`, `itertools.combinations`, binomial counts, lexicographic order on groups |
| ranking.dfy | Ranking | `value_counts()` as a tally plus a ranking, `head(n)` |
| analysis.dfy | Analysis | the `topnum`, `combination` and `groupfreq` commands |
| records.dfy | Records | the field conversions of both scripts and the `DrawStore` collection |

### Behaviour of the code

The end bound of `--range` is `pd.Timestamp(end).replace(hour=23, minute=59)`. That instant is 23:59:00.000000 of the end date, not its last instant. A draw stored after 23:59:00 on the end date is therefore excluded. The model follows the code (`Analysis.EndBoundInclusive`). Draws in the archive are stored at midnight, so for them the end date is included.

A few other points the model follows the code on:
- The start of a range is always required: `:2024-12-31` is refused.
- A start later than the end is accepted.
- The legacy form never looks at the character at index 10.

## Model

| member | source | states |
|---|---|---|
| Text.Strip | scripts/scheduled_script/main.py:40-43 | the result has no whitespace at either end (Python's `isspace` set) and is no longer than the input; with `StripTrimmed` and `StripIdempotent`, stripping a stripped text changes nothing |
| Text.ParseInt | scripts/scheduled_script/main.py:40 | `int()` of a text: a number only for text that is not blank once stripped; `ParseIntRefusals` gives what else it refuses, `ParseIntStrip` shows surrounding whitespace does not matter, and `IntToStringRoundTrip` shows it reads every `str(n)` back as `n` |
| Text.IntToString | toto_cli/src/toto_cli/cli.py:193 | `str(n)` in decimal with a leading `-` for negative numbers; `IntToStringShape` shows it is non-empty, trimmed and comma-free, and `IntToStringRoundTrip` shows `int()` reads it back as `n` |
| Text.StripIdempotent | scripts/scheduled_script/main.py:40-43 | `strip()` applied twice equals applied once |
| Text.Split | toto_cli/src/toto_cli/util.py:11 | `split(sep)` gives at least one piece and no piece holds the separator |
| Text.JoinSplit | toto_cli/src/toto_cli/util.py:11 | joining the pieces of `split(sep)` with `sep` gives back the text |
| Text.SplitJoin | toto_cli/src/toto_cli/util.py:11 | splitting the join of separator-free pieces gives back the pieces |
| Text.SplitTrailingSep | scripts/scheduled_script/main.py:47 | a trailing separator adds exactly one empty last piece |
| Text.ParseIntRefusals | scripts/scheduled_script/main.py:40 | `int()` accepts only text that, once stripped, is non-empty, holds nothing but digits, underscores and one leading sign, has a digit right after any sign, and ends with a digit; every other text is refused |
| Text.ParseIntStrip | scripts/scheduled_script/main.py:40 | `int()` ignores surrounding whitespace: parsing the stripped text is the same |
| Text.IntToStringRoundTrip | toto_cli/src/toto_cli/cli.py:192-194 | `int(str(n)) == n` for every integer, negative ones included; the model has no digit limit (see Left out) |
| Text.IntToStringShape | toto_cli/src/toto_cli/cli.py:192-194 | `str(n)` is non-empty, has no surrounding whitespace and no comma |
| Calendar.DaysInMonth | toto_cli/src/toto_cli/util.py:24 | each month has 28 to 31 days, and 29 exactly for February of a leap year |
| Calendar.MonthField | toto_cli/src/toto_cli/util.py:24 | an accepted `%m` field is a month 1..12 |
| Calendar.DayField | toto_cli/src/toto_cli/util.py:24 | an accepted `%d` field is a day 1..31 |
| Calendar.ParseDate | toto_cli/src/toto_cli/util.py:24-25 | every date `strptime` returns is a valid calendar date; an accepted text is 8 to 10 characters long, has a dash at index 4, and its first four characters are the year |
| Calendar.CanonicalParse | toto_cli/src/toto_cli/util.py:24-29 | every zero-padded `YYYY-MM-DD` text is read as the date it spells when that date is on the calendar, and refused otherwise (month 0 or 13, day 0 or past the month's end, year 0) |
| Calendar.FormatParseDate | toto_cli/src/toto_cli/util.py:24-25 | a ten-character text without spaces that parses is the canonical spelling of its date, the other direction of `ParseFormatDate` |
| Calendar.FormatDate | scripts/scheduled_script/main.py:41 | the canonical `YYYY-MM-DD` spelling of a date, as the page cell holds it, is ten characters long and holds no colon |
| Calendar.ParseFormatDate | scripts/scheduled_script/main.py:46 | `strptime` parses the canonical `YYYY-MM-DD` text of every valid date back to that date |
| Calendar.NextDay | toto_cli/src/toto_cli/cli.py:88-90 | the next day is later, and valid whenever it is not past year 9999 |
| Calendar.NextDayImmediate | toto_cli/src/toto_cli/cli.py:88-90 | no valid date lies strictly between a date and the next day: any later valid date is the next day or after it |
| Calendar.InstantLeTotalOrder | toto_cli/src/toto_cli/cli.py:87-90 | the comparison of timestamps is reflexive, total, antisymmetric and transitive |
| DateRange.ParseDateRange | toto_cli/src/toto_cli/util.py:3-29 | every failure is `BadParameter("Format must be YYYY-MM-DD:YYYY-MM-DD")`; a bounded result always has a start; both bounds are valid dates; the unbounded range is returned if and only if the option is absent or empty |
| DateRange.EmptyIsUnbounded | toto_cli/src/toto_cli/util.py:5-6 | an absent or empty option is the unbounded range |
| DateRange.ColonFields | toto_cli/src/toto_cli/util.py:11-22 | in the colon form the first field is the start text and the second the end text; later fields are ignored |
| DateRange.ColonFormBothDates | toto_cli/src/toto_cli/util.py:20-27 | `A:B` with two dates gives `(A, B)`, whatever follows a further colon |
| DateRange.ColonFormOpenEnd | toto_cli/src/toto_cli/util.py:22-25 | `A:` gives `(A, None)`: an empty end text means no end |
| DateRange.ColonFormBadStart | toto_cli/src/toto_cli/util.py:24-29 | a start that is not a date, an empty one included, is refused |
| DateRange.ColonFormBadEnd | toto_cli/src/toto_cli/util.py:25-29 | a non-empty end that is not a date is refused |
| DateRange.LegacyForm | toto_cli/src/toto_cli/util.py:14-18 | without a colon and longer than ten characters, characters 0-9 are the start and 11 onward are the end; the character at index 10 does not matter |
| DateRange.BareDate | toto_cli/src/toto_cli/util.py:11-22 | a value without a colon of at most ten characters is a start with no end |
| DateRange.ColonRoundTrip | toto_cli/src/toto_cli/util.py:20-27 | the text `A:B` of two canonical dates parses back to exactly those dates |
| DateRange.ReversedRangeAccepted | toto_cli/src/toto_cli/util.py:24-27 | a start later than the end is not refused |
| DateRange.LegacyRoundTrip | toto_cli/src/toto_cli/util.py:14-18 | the legacy text `A-B` of two canonical dates parses back to them |
| DateRange.BadTwoDigitMonth | toto_cli/src/toto_cli/util.py:24 | a two-character month field `%m` refuses makes the date fail |
| DateRange.InvalidMonthFails | toto_cli/src/toto_cli/util.py:24-29 | a start of month 13 is refused whatever the end is |
| DateRange.NonLeapFebruary29Fails | toto_cli/src/toto_cli/util.py:24-29 | February 29 of a common year is refused |
| Combinatorics.InsertSorted | toto_cli/src/toto_cli/cli.py:128 | inserting into a sorted sequence keeps it sorted and adds exactly that element |
| Combinatorics.SortInts | toto_cli/src/toto_cli/cli.py:128 | `sorted(nums)` is sorted and a permutation of `nums` |
| Combinatorics.SortedUnique | toto_cli/src/toto_cli/cli.py:128 | two sorted permutations of the same numbers are equal |
| Combinatorics.SortIntsKey | toto_cli/src/toto_cli/cli.py:128 | two draws get the same sorted tuple if and only if they hold the same numbers |
| Combinatorics.SortDistinct | toto_cli/src/toto_cli/cli.py:179 | sorting numbers without repeats gives a strictly ascending sequence of the same numbers |
| Combinatorics.BinomTooLarge | toto_cli/src/toto_cli/cli.py:179 | there are no `k`-groups of fewer than `k` numbers |
| Combinatorics.CombosCount | toto_cli/src/toto_cli/cli.py:179 | `combinations(s, k)` yields `Binom(len(s), k)` groups |
| Combinatorics.CombosShape | toto_cli/src/toto_cli/cli.py:179 | each group has `k` numbers, all taken from `s` with multiplicity |
| Combinatorics.CombosSorted | toto_cli/src/toto_cli/cli.py:179 | groups of a sorted sequence are sorted |
| Combinatorics.CombosStrict | toto_cli/src/toto_cli/cli.py:179 | groups of a strictly ascending sequence are strictly ascending |
| Combinatorics.CombosSubset | toto_cli/src/toto_cli/cli.py:179 | every number of a group occurs in `s`, and sortedness carries over |
| Combinatorics.CombosComplete | toto_cli/src/toto_cli/cli.py:179 | every strictly ascending `k`-group of numbers of `s` is generated |
| Combinatorics.CombosMembership | toto_cli/src/toto_cli/cli.py:179 | for strictly ascending `s`, a group is generated if and only if it has `k` numbers, is strictly ascending and is drawn from `s` |
| Combinatorics.CombosDistinct | toto_cli/src/toto_cli/cli.py:179 | for strictly ascending `s`, no group is generated twice |
| Combinatorics.DrawGroupCount | toto_cli/src/toto_cli/cli.py:179-180 | a draw without repeated numbers contributes each ascending `k`-group of its numbers exactly once, and no other group |
| Combinatorics.CombosAll | toto_cli/src/toto_cli/cli.py:179 | the groups of size `len(s)` are just `s` itself |
| Combinatorics.CombosSingles | toto_cli/src/toto_cli/cli.py:179 | the groups of size one are the numbers one by one, in order |
| Combinatorics.LexLeTotal | toto_cli/src/toto_cli/cli.py:129-131 | the tie order on groups is total |
| Combinatorics.LexLeAntisymmetric | toto_cli/src/toto_cli/cli.py:129-131 | the tie order on groups is antisymmetric |
| Combinatorics.LexLeTransitive | toto_cli/src/toto_cli/cli.py:129-131 | the tie order on groups is transitive |
| Ranking.BumpKeys | toto_cli/src/toto_cli/cli.py:183-186 | counting one more occurrence keeps keys distinct, adds at most the counted key and raises the total by one |
| Ranking.BumpCount | toto_cli/src/toto_cli/cli.py:183-186 | the counted key's row goes up by one, or starts at one |
| Ranking.TallyCounts | toto_cli/src/toto_cli/cli.py:183-186 | the tally has distinct keys, exactly the keys counted, each with its multiplicity (at least one), and a total equal to the number of keys counted |
| Ranking.CountOccurrences | toto_cli/src/toto_cli/cli.py:183-186 | the hash-table counting loop computes the tally of the keys |
| Ranking.InsertRow | toto_cli/src/toto_cli/cli.py:129-131 | inserting a row into a ranked table keeps it ranked and adds exactly that row |
| Ranking.Rank | toto_cli/src/toto_cli/cli.py:129-131 | the sort by count gives a ranked permutation of the rows with the same total |
| Ranking.RankedCounts | toto_cli/src/toto_cli/cli.py:129-131 | counts never increase down a ranked table |
| Ranking.RankedStrict | toto_cli/src/toto_cli/cli.py:129-131 | with distinct keys, each row either has a higher count than the next or the same count and a strictly smaller group |
| Ranking.RankDistinct | toto_cli/src/toto_cli/cli.py:129-131 | ranking keeps keys distinct |
| Ranking.RankedUnique | toto_cli/src/toto_cli/cli.py:129-131 | two ranked tables with distinct keys and the same rows are identical: the order is fully determined |
| Ranking.ValueCounts | toto_cli/src/toto_cli/cli.py:183-189 | `value_counts()` lists each key counted once, with its number of occurrences (at least one), every such key, only such keys, ranked by descending count, and with counts summing to the number of keys |
| Ranking.ValueCountsPermutation | toto_cli/src/toto_cli/cli.py:129-134 | `value_counts()` depends only on the multiset of keys, not on their order |
| Ranking.Head | toto_cli/src/toto_cli/cli.py:202 | `head(n)` is the first `min(n, len)` rows, and for negative `n` all but the last `-n` rows |
| Ranking.HeadTopRows | toto_cli/src/toto_cli/cli.py:102 | `head(n)` of a ranked table keeps its first rows, as many as `n` asks for (all of them when the table is shorter, all but the last `-n` for negative `n`), and no row left out has a higher count than one kept |
| Ranking.HeadRanked | toto_cli/src/toto_cli/cli.py:102 | the head of a ranked table is ranked, keeps keys distinct and holds only rows of the table |
| Analysis.Filter | toto_cli/src/toto_cli/cli.py:87-90 | the mask selection keeps exactly the draws that satisfy the condition |
| Analysis.FilterFilter | toto_cli/src/toto_cli/cli.py:86-90 | filtering by the start and then by the end is filtering by both |
| Analysis.FilterEmpty | toto_cli/src/toto_cli/cli.py:93-95 | the filtered frame is empty if and only if no draw satisfies the condition |
| Analysis.FilterByRange | toto_cli/src/toto_cli/cli.py:84-91 | the two optional filter steps keep exactly the draws within the range |
| Analysis.UnboundedKeepsAll | toto_cli/src/toto_cli/cli.py:84-85 | without bounds no draw is dropped |
| Analysis.NaTOnlyWithoutBounds | toto_cli/src/toto_cli/cli.py:81-90 | a draw with an unparsable date survives if and only if the range has no bound |
| Analysis.StartBound | toto_cli/src/toto_cli/cli.py:87 | a draw survives the start bound if and only if its date is the start date or later |
| Analysis.EndBoundInclusive | toto_cli/src/toto_cli/cli.py:88-90 | on the end date a draw survives if and only if its time is at most 23:59:00; midnight of the end date survives; no draw on any later date survives, the next day included |
| Analysis.Explode | toto_cli/src/toto_cli/cli.py:98 | `df.explode('winning_numbers')`: each drawn number as a one-number group, draw after draw; `SinglesCount` and `ExplodeCount` give how often each number appears in it |
| Analysis.SinglesCount | toto_cli/src/toto_cli/cli.py:98 | exploding a draw gives each number as often as it appears in the draw |
| Analysis.ExplodeCount | toto_cli/src/toto_cli/cli.py:98 | the exploded column holds each number as often as it was drawn over all draws, and one entry per number drawn |
| Analysis.NumberTable | toto_cli/src/toto_cli/cli.py:98-100 | the number table is ranked and lists every drawn number once, with how often it was drawn, and nothing else |
| Analysis.TopNum | toto_cli/src/toto_cli/cli.py:61-102 | a bad `--range` is a usage error with the format message; an empty collection is "no data"; a filter that keeps nothing is "no records match"; otherwise a table is shown |
| Analysis.TopNumRows | toto_cli/src/toto_cli/cli.py:97-102 | the shown table is the first `num` rows of the ranked number table of the draws in range (all of it when shorter): exactly `min(num, rows)` rows for `num >= 0`, each number once with its count within the range, and no number left out drawn more often than one shown |
| Analysis.TopNumComplete | toto_cli/src/toto_cli/cli.py:97-102 | with `num` at least the table size, every number drawn within the range is shown and the counts sum to all numbers drawn |
| Analysis.AllCombos | toto_cli/src/toto_cli/cli.py:177-180 | the `all_combos` list: the `g`-combinations of each draw's sorted numbers, draw after draw; `CollectCombos` proves the nested loops build it, and `AllCombosCount`, `AllCombosShape` and `GroupOccurrences` give its size, shape and counts |
| Analysis.CollectCombos | toto_cli/src/toto_cli/cli.py:177-180 | the nested loops collect the `g`-combinations of every draw's sorted numbers, draw after draw |
| Analysis.AllCombosCount | toto_cli/src/toto_cli/cli.py:177-180 | the collected list holds `Binom(len(draw), g)` groups per draw |
| Analysis.AllCombosShape | toto_cli/src/toto_cli/cli.py:177-180 | each collected group has `g` numbers, is sorted and comes from one draw |
| Analysis.GroupOccurrences | toto_cli/src/toto_cli/cli.py:177-186 | for draws without repeated numbers, a group is counted once for each draw holding all its numbers if it is an ascending `g`-group, else never |
| Analysis.GroupTable | toto_cli/src/toto_cli/cli.py:183-189 | the group table is ranked with distinct keys and sorted `g`-groups; its counts sum to all groups collected; for draws without repeats each count is the number of draws holding the group |
| Analysis.FormatGroup | toto_cli/src/toto_cli/cli.py:192-194 | `", ".join(str(n) for n in c)`; `FormatGroupRoundTrip` shows the scripts' split/strip/int rule reads it back as the group |
| Analysis.FormatRows | toto_cli/src/toto_cli/cli.py:192-194 | the table with each group replaced by its text, row by row; `FormatRowsRoundTrip` and `HeadFormat` give its meaning |
| Records.FormatRowsRoundTrip | toto_cli/src/toto_cli/cli.py:192-194 | one printed line per row, and each line's numbers text parses back to the row's group, beside the row's count |
| Analysis.GroupFreq | toto_cli/src/toto_cli/cli.py:150-202 | a group size outside 2..6 is a usage error; an empty collection is "no data"; otherwise a table is shown |
| Analysis.HeadFormat | toto_cli/src/toto_cli/cli.py:192-202 | formatting then taking the head equals taking the head then formatting |
| Analysis.GroupFreqRows | toto_cli/src/toto_cli/cli.py:177-202 | the printed lines are the formatted first `top` rows of the ranked table of sorted `g`-groups (all of it when shorter), each group once, and no group left out more frequent than one shown; for draws without repeats each count is the number of draws holding the group |
| Analysis.SinglesAreGroupsOfOne | toto_cli/src/toto_cli/cli.py:177-189 | counting groups of size one gives the same table as `topnum`'s: an identity between model functions, since `groupfreq` refuses `g = 1`; in pandas the two tables hold the same rows but may order tied rows differently, because the keys arrive in different orders |
| Analysis.SortedKeys | toto_cli/src/toto_cli/cli.py:128 | one key per draw, each sorted and holding exactly the draw's numbers with their multiplicities |
| Analysis.SortedKeyCount | toto_cli/src/toto_cli/cli.py:128-131 | a sorted key is counted once for each draw holding the same numbers in any order |
| Analysis.CombinationTable | toto_cli/src/toto_cli/cli.py:128-134 | the combination table is ranked, lists each draw's sorted numbers once, counts the draws with the same numbers, and totals the number of draws |
| Analysis.Combination | toto_cli/src/toto_cli/cli.py:126-145 | an empty collection fails (caught `KeyError`); any other shows a table |
| Analysis.CombinationRows | toto_cli/src/toto_cli/cli.py:128-142 | `combination` shows the first three rows of the ranked table of exact combinations (all of it when shorter, at least one), each once, with the number of draws holding exactly those numbers, and no combination left out more frequent than one shown |
| Analysis.WholeDrawGroups | toto_cli/src/toto_cli/cli.py:177-180 | when every draw has `k` numbers, its only `k`-group is its sorted numbers |
| Analysis.GroupsOfAllAreCombinations | toto_cli/src/toto_cli/cli.py:177-189 | `groupfreq -g k` on draws of `k` numbers counts the same table as `combination` |
| Records.ParseOptionalInt | scripts/scheduled_script/main.py:48 | a blank additional number is no number, not an error; otherwise it is `int()` of the text, and fails exactly when `int()` does |
| Records.ParsePieces | scripts/scheduled_script/main.py:47 | blank pieces are skipped, so no more numbers than pieces |
| Records.ParsePiecesAppend | scripts/scheduled_script/main.py:47 | the comprehension over two runs of pieces is the concatenation, failures included |
| Records.TrailingComma | scripts/scheduled_script/main.py:47 | a trailing comma in the numbers cell changes nothing |
| Records.ParseNumbers | scripts/scheduled_script/main.py:47 | `[int(n.strip()) for n in raw.split(',') if n.strip()]`, as both scripts use it; `ParsePiecesOfInts`, `PlainListRoundTrip` and `TrailingComma` give its meaning |
| Records.ParsePiecesOfInts | scripts/scheduled_script/main.py:47 | pieces that are integer texts with any padding parse to those integers |
| Records.FormatGroupRoundTrip | toto_cli/src/toto_cli/cli.py:192-194 | the `", "`-joined text of a group parses back to the group with the numbers cell's conversion |
| Records.PlainListRoundTrip | scripts/scheduled_script/main.py:42-47 | a comma-joined list of integers, as on the results page, parses back to that list |
| Records.RecordFromCells | scripts/scheduled_script/main.py:36-55 | a converted row has a draw number, no update time, and a valid date at midnight |
| Records.RecordFromCellsSucceeds | scripts/scheduled_script/main.py:36-59 | a document is built if and only if there are four cells and each converts; otherwise `None` |
| Records.RecordFromCanonicalCells | scripts/scheduled_script/main.py:40-55 | the cells of any draw as the page shows it convert back to that draw |
| Records.PaddedDateRefused | scripts/2_ingest_to_mongo.py:26 | the CSV date is not stripped: a padded date makes the row fail |
| Records.LatestDraw | scripts/scheduled_script/main.py:20-59 | `get_latest_draw()`: nothing without a first row, otherwise the record of its cells; `LatestDrawOfPage` gives its values |
| Records.LatestDrawOfPage | scripts/scheduled_script/main.py:36-59 | a page whose first row shows a draw gives exactly that draw: its number, its date at midnight, its numbers, its additional number or `None` for an empty cell, with no update time; a failed fetch or a page without the table (`None`) gives nothing |
| Records.RowToDoc | scripts/2_ingest_to_mongo.py:23-29 | a converted CSV row has no draw number, no update time and a date at midnight; `RowOfDraw` gives its values |
| Records.RowOfDraw | scripts/2_ingest_to_mongo.py:23-29 | the CSV row of a draw converts to exactly that draw: its `YYYY-MM-DD` date at midnight of that day, its numbers in order by the split/strip/int rule, and its additional number, `None` for a blank field |
| Records.RowToDocSucceeds | scripts/2_ingest_to_mongo.py:23-29 | a row converts if and only if it has all three fields and each converts; its date is valid |
| Records.Collect | scripts/2_ingest_to_mongo.py:21-30 | collecting keeps one document per row |
| Records.CollectPerItem | scripts/2_ingest_to_mongo.py:21-30 | the loop succeeds if and only if every row converts, and then holds the rows' documents in order |
| Records.ConvertRows | scripts/2_ingest_to_mongo.py:19-30 | the documents of every row in order, or `None` when a row fails; `ConvertRowsPerRow` and `ConvertRowsFailure` give its meaning |
| Records.ConvertRowsPerRow | scripts/2_ingest_to_mongo.py:21-30 | the file converts if and only if every row converts, giving their documents in order |
| Records.ConvertRowsFailure | scripts/2_ingest_to_mongo.py:21-30 | one failing row makes the whole conversion fail |
| Records.DrawStore.FindOneByDate | scripts/scheduled_script/main.py:70-71 | `find_one` finds nothing if and only if no stored document has the date; otherwise it returns the first one that does |
| Records.DrawStore.InsertOne | scripts/scheduled_script/main.py:78 | `insert_one` appends the document |
| Records.DrawStore.InsertMany | scripts/2_ingest_to_mongo.py:34 | `insert_many` appends the batch |
| Records.DrawStore.Sync | scripts/scheduled_script/main.py:61-81 | nothing for a missing record; the record is inserted, stamped with `now`, if and only if no document has its date; afterwards its date is stored; distinct dates stay distinct |
| Records.DrawStore.Serve | scripts/scheduled_script/main.py:83-91 | the reply is "Success" if and only if a record was built, and "Failed" otherwise; a failed fetch changes nothing; after success the store is unchanged when it already held the draw's date, and otherwise has the draw, stamped with `now`, appended; unique dates stay unique |
| Records.DrawStore.Ingest | scripts/2_ingest_to_mongo.py:16-35 | a row that fails ends the run with nothing inserted; otherwise every row's document is appended in order, with no insert for an empty file |

## Left out

- MongoDB itself is not modelled. The connection, the environment variables, `client.close()` and the server's own errors are out. The collection is a sequence of documents in insertion order.
- `insert_one` sets `_id` on the dictionary it is given, and `sync_to_mongodb` adds `updated_at` to the caller's dictionary. The model builds a new document instead and has no `_id`.
- Fetching the results page is not modelled. The HTTP request, the HTML parsing and the lookup of `summary-table` are out. `Records.LatestDraw` takes the first row's cell texts as a parameter, and `None` stands for any failure before the cells.
- `datetime.now()` is a parameter (`now`). Time zones are not modelled.
- `read_root` turns an exception from the database into an `"Error-..."` reply. The model has no database exceptions, so only "Success" and "Failed" occur.
- The `latest` command is not modelled: it is a database query and a table display.
- The `/health` endpoint is not modelled: it only answers "OK".
- The `--csv` flag, `to_csv` and all console output are out. This covers `tabulate`, `to_string`, colours, headers, `group_labels` and progress messages. Shown tables are data (`Outcome.Shown`).
- Click's usage errors are modelled by their condition and their core text only. Click's framing of the message is out.
- Reading the CSV file, its encoding, and `csv.DictReader`'s quoting are out. A row is its three field texts, `None` where the row is too short. A file without one of the columns is not modelled.
- Documents whose `winning_numbers` is missing or not a list are not modelled. Neither are dates stored as anything but timestamps; unparsable dates do appear, as `NaT`.
- `int()` and `strptime` accept non-ASCII decimal digits in Python. The model accepts ASCII digits only.
- Text.IntToStringRoundTrip: CPython 3.11 and later refuse `str(n)` and `int(text)` beyond 4300 digits by default, and the model has no such limit. The round trip is Python's only for integers of at most 4300 digits, which covers every draw number and winning number.
- The model follows pandas 2 for the column names after `reset_index()`. Under pandas 1 the `combination` command renames the count column and fails.
- Ranking.ValueCounts: rows with equal counts are ordered by ascending group in the model. pandas leaves that order to its hash table, so only the descending counts are what pandas promises.
- Analysis.TopNum: numbers are singleton groups `[n]`. `value_counts()` on the exploded column drops the `NaN` an empty list would explode to, and the model gives an empty list no entries at all.
- Analysis.GroupOccurrences: the exact count per group is proved for draws without repeated numbers, as Toto draws are. For draws that repeat a number, only the shape and the total of the table are proved.

# Daily RRP collector: a verified model

The collector is a one-shot script. It works out yesterday's date, finds that day's
`PUBLIC_PRICES_…zip` archive in the market operator's directory listing, and reads the
archive's table projected to `REGIONID`, `SETTLEMENTDATE` and `RRP`. It then cleans the table
in place: exact duplicate rows go, rows with every field missing go, and the row with the last
index label goes. Finally it writes one output per region in the fixed list `QLD1`, `NSW1`.

This project models those steps in Dafny and proves what each promises:

- `Calendar`: the day before the run date, which rolls back over month ends, leap days and
  year ends and fails below 0001-01-01. Also its `YYYYMMDD` rendering, with a parse-back
  round trip.
- `Locator`: the pattern `PUBLIC_PRICES_<stamp>\d{4}_\d{14}\.zip(?!")` searched leftmost in
  the listing. The model covers the exact name grammar and the quote lookahead, and shows why
  the `href="…"` copy of a link is skipped for its link text. The URL is the base URL followed
  by the match.
- `Masks`: pandas boolean-mask selection (`s[mask]`). Selection keeps order, keeps only input
  elements, and with a row-predicate mask keeps exactly the matching rows with their
  multiplicities.
- `Cleaning`: the `Frame` class, which holds the rows and their index labels and updates both
  in place. Its steps are `drop_duplicates`, `dropna(how='all')`, `df.index[-1]` and
  `drop(index=…)`. Each step is specified by a function on the rows, and lemmas prove
  duplicate-freedom, blank-freedom, first-occurrence order, idempotence, and that dropping the
  last label removes exactly the last row.
- `Regions`: the loop over the region list, which gives each region exactly its rows in table
  order.
- `Collector`: the whole run as a method, proved equal to a specification function, and the
  run's overall guarantees.
- `Scenarios`: concrete runs of the cleaning, splitting and locating steps.

The run date, the listing text and the parsed table are inputs. The written files are returned
as a map from region code to rows.

## Model

| member | source | states |
|---|---|---|
| Calendar.Yesterday | collect_rrp_data.py:28 | yesterday is a valid date strictly before the run date; it is absent exactly on 0001-01-01, where the subtraction overflows |
| Calendar.YesterdayIsLatestEarlierDate | collect_rrp_data.py:28 | a valid date is before the run date iff it is yesterday or before yesterday, so nothing lies between them |
| Calendar.TomorrowOfYesterday | collect_rrp_data.py:28 | the day after yesterday is the run date |
| Calendar.YesterdayOfTomorrow | collect_rrp_data.py:28 | stepping forward then back a day returns to the start date |
| Calendar.Stamp | collect_rrp_data.py:29 | the `%Y%m%d` rendering is 8 characters, all decimal digits |
| Calendar.StampRoundTrip | collect_rrp_data.py:29 | reading the 4+2+2 digit fields back gives the same date |
| Calendar.StampInjective | collect_rrp_data.py:29 | different dates get different stamps |
| Text.DigitsRoundTrip | collect_rrp_data.py:29 | a zero-padded fixed-width rendering of a number below 10^width reads back as that number |
| Locator.ArchiveNameGrammar | collect_rrp_data.py:40 | a string matches the name pattern iff it is `PUBLIC_PRICES_` + stamp + 4 digits + `_` + 14 digits + `.zip` |
| Locator.MatchesAt | collect_rrp_data.py:40 | a match at a position spells `PUBLIC_PRICES_`, then the stamp, and ends in `.zip` inside the text; a match directly followed by `"` does not count |
| Locator.Search | collect_rrp_data.py:41 | the search result is a matching position with no match before it; None means no position matches |
| Locator.SearchFindsLeftmost | collect_rrp_data.py:41 | any matching position with no earlier match is the one returned |
| Locator.Locate | collect_rrp_data.py:28-41 | the located name is an archive name for yesterday's stamp; the only errors are date overflow and no match |
| Locator.LocateReturnsLeftmostMatch | collect_rrp_data.py:40-41 | the located name is the listing text at the leftmost un-quoted match |
| Locator.LocateFailsOnlyWithoutMatch | collect_rrp_data.py:41 | the run stops for want of an archive iff no position of the listing matches; there is no fallback |
| Locator.ArchiveUrl | collect_rrp_data.py:46 | the URL is the base URL followed by the located name; errors pass through unchanged |
| Locator.LinkTextFound | collect_rrp_data.py:40 | for a link `NAME">NAME`, the quoted href copy is rejected by the lookahead, and the link text is returned |
| Masks.SelectPicksKeptPositions | collect_rrp_data.py:66-85 | boolean-mask selection keeps order: result element k is the input element at the k-th true position |
| Masks.SelectWhere | collect_rrp_data.py:68-85 | a predicate mask keeps exactly the rows satisfying it, each as many times as it occurs |
| Cleaning.Deduplicated | collect_rrp_data.py:66 | after `drop_duplicates` no two rows are equal on all three fields, and a row is in the result iff it is in the input |
| Cleaning.DeduplicatedKeepsFirstOccurrences | collect_rrp_data.py:66 | the kept rows are exactly the first occurrences, at ascending input positions |
| Cleaning.DeduplicatedOfDistinct | collect_rrp_data.py:66 | a table without repeated rows is unchanged |
| Cleaning.DeduplicatedIdempotent | collect_rrp_data.py:66 | deduplicating twice equals deduplicating once |
| Cleaning.WithoutBlankRows | collect_rrp_data.py:68 | no all-missing row remains; every row with a value is kept as often as it occurred |
| Cleaning.WithoutBlankRowsKeepsOrder | collect_rrp_data.py:68 | the kept rows appear in their original relative order, and every non-blank position is kept |
| Cleaning.WithoutBlankRowsOfFilled | collect_rrp_data.py:68 | a table without blank rows is unchanged |
| Cleaning.DropLastLabel | collect_rrp_data.py:70 | with ascending labels, dropping the last label removes exactly the final row and leaves the others unchanged |
| Cleaning.Clean | collect_rrp_data.py:66-70 | cleaning fails, with the empty-frame error only, iff no row of the table has a value; otherwise the cleaned rows are distinct, non-blank and from the input |
| Cleaning.CleaningStepsIdempotent | collect_rrp_data.py:66-68 | re-running deduplication and blank removal on their own output changes nothing |
| Cleaning.Frame.ReadCsv | collect_rrp_data.py:56 | the frame holds the parsed rows in order, labelled 0, 1, 2, … |
| Cleaning.Frame.DropDuplicates | collect_rrp_data.py:66 | in place: rows become the deduplicated rows, labels follow their rows, labels stay ascending |
| Cleaning.Frame.DropBlankRows | collect_rrp_data.py:68 | in place: rows lose the blank rows, labels follow their rows, labels stay ascending |
| Cleaning.Frame.LastLabel | collect_rrp_data.py:70 | `df.index[-1]` is absent iff the frame is empty; otherwise it is the final label, and it exceeds every other label |
| Cleaning.Frame.Drop | collect_rrp_data.py:70 | in place, for a label present in the index: every row carrying it is removed, with its label |
| Regions.RegionRows | collect_rrp_data.py:85 | a region's output holds only rows whose region equals the code exactly, and every such row as often as it occurs |
| Regions.RegionRowsKeepOrder | collect_rrp_data.py:85 | a region's output keeps the cleaned table's row order |
| Regions.RegionFiles | collect_rrp_data.py:79-86 | a run writes exactly the QLD1 and NSW1 outputs, each holding its region's rows |
| Regions.SplitByRegion | collect_rrp_data.py:79-86 | the loop writes one output per listed region, each holding that region's rows |
| Collector.Collect | collect_rrp_data.py:28-86 | a missing archive or an overflowing date fails the run with that error whatever the table; a located archive and an all-blank table fail it with the empty-frame error; the run succeeds iff both steps succeed, and then writes exactly QLD1 and NSW1 |
| Collector.ReadAndClean | collect_rrp_data.py:56-70 | the in-place steps on the frame give exactly the cleaned rows, or the empty-frame error |
| Collector.CollectRrpData | collect_rrp_data.py:28-86 | the script's statements produce exactly the outcome of the run's specification |
| Collector.CollectOutcome | collect_rrp_data.py:28-86 | a missing archive fails the run whatever the table; an all-blank table fails it; otherwise the URL is base + yesterday's archive name and the outputs are exactly QLD1 and NSW1, holding region-matching, non-blank rows from the table |
| Collector.CollectOutputsDistinct | collect_rrp_data.py:66-86 | no region output repeats a row |
| Scenarios.DeduplicatedRepeatAtFront | collect_rrp_data.py:66 | in `[q, q, n, b, t]`, deduplication removes only the second `q` |
| Scenarios.WithoutBlankRowsOneBlank | collect_rrp_data.py:68 | blank removal drops only the blank row |
| Scenarios.CleaningScenario | collect_rrp_data.py:66-70 | a repeated QLD1 row, an NSW1 row with only its region, a blank row and a `TOTAL` trailer clean to the QLD1 and NSW1 rows |
| Scenarios.SplitScenario | collect_rrp_data.py:79-86 | that cleaned table gives QLD1 and NSW1 one row each |
| Scenarios.SingleRowScenario | collect_rrp_data.py:70 | when one row is left before the final drop, the cleaned table is empty |
| Scenarios.DroppedRowIsNotLastRowRead | collect_rrp_data.py:66-70 | when the last row read repeats an earlier one, the final drop removes a data row, not the row read last |
| Scenarios.OverlongTimestampNotLocated | collect_rrp_data.py:40-41 | a name with a 20-digit timestamp followed by `"` is not located |

## Behaviour as written

- The row removed last is the final row left after deduplication and blank removal, not the
  final row read from the file. When the last row read repeats an earlier row, deduplication
  removes it, and the final drop then removes a data row
  (`Scenarios.DroppedRowIsNotLastRowRead`).
- The pattern demands exactly 14 digits before `.zip` and rejects a name directly followed by
  `"`. A name with a longer timestamp, such as 20 digits, directly followed by a quote is
  therefore not located (`Scenarios.OverlongTimestampNotLocated`).
- An empty frame at the final drop raises pandas' IndexError; this is `EmptyFrame`. Calling
  `.group()` on a failed search raises AttributeError; this is `NoArchiveMatch`.

## Left out

- Network access is not modelled. This covers the listing fetch, the archive download and the
  UTF-8 decode, which can fail. The listing is a string input. The table read from the
  archive is a sequence of rows given as input.
- `pd.read_csv` is not modelled: zip decompression, `header=1`, skipping malformed lines with
  `on_bad_lines='skip'`, `usecols` and the error for a missing column are library behaviour.
  The model starts from the projected rows and labels them 0, 1, 2, … as read_csv does.
- `date.today()` reads the clock; the run date is a parameter.
- `os.makedirs` and `to_csv` are not modelled: the outputs are the returned map. The CSV
  text, its header row and file overwriting are not modelled.
- `print` diagnostics are not modelled.
- `RRP` is a 64-bit float in the source and an exact `real` in the model. Parsing text to a
  float and its rounding are not modelled. Two prices that are different reals but round to
  the same float, such as `0.1` and `0.10000000000000000001`, are one value to
  `drop_duplicates` but different rows in the model, so the model can keep a row that pandas
  removes as a duplicate. Missing values (NaN) are `None`. `None == None`, which matches
  `drop_duplicates` treating two NaNs as equal.
- Text.IsDigit: Python's `\d` on a `str` pattern matches every Unicode decimal digit. The
  model accepts only ASCII `0`–`9`, so it does not locate names written with other digit
  scripts.
- Calendar.Stamp: pads the year to four digits. Python's `strftime('%Y')` for years below
  1000 depends on the platform's C library.
- Locator.Search, Locator.Locate: the stamp is treated as literal text. This is right
  because it is always decimal digits, which carry no regular-expression meaning.
- Cleaning.Frame.Drop: requires the label to be in the index. pandas raises KeyError for a
  missing label, and the script only passes `df.index[-1]`, which is always present.
- Locator.LinkTextFound: proved for a listing in the general `…NAME">NAME…` shape rather than
  for a whole concrete HTML page.

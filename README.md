# arXiv-filter `run.py` in Dafny

`run.py` of arXiv-filter fetches one day's arXiv submissions in a category and
turns the Atom feed it receives into a dictionary of records. This project
models the logic of that script and proves properties of the model:

- **Tag extraction.** `get_attr` returns the text between the first `<name>`
  and the first `</name>`. As in the code, the closing tag is searched from the
  start of the whole text, not from after the opening tag. A Python slice
  whose end lies before its start gives `""`. `get_attr_list` makes one pass
  per `<name>` of the original text. Each pass takes the first pair and
  continues on the text after its closing tag. A missing tag raises
  `ValueError` in both; the model returns `Err(MissingOpenTag)` or
  `Err(MissingCloseTag)`.
- **Run planning.** A Saturday or Sunday run is cancelled (`Skip`). A Monday
  run looks back 3 days, any other weekday 1 day. A cap above 10000 results
  is rejected. Both ends of the window are rendered as `YYYYMMDD` followed by
  `0000`. Dates follow the proleptic Gregorian calendar of Python's
  `datetime`: day numbers as `toordinal`, `weekday()` with Monday as 0, and
  subtraction of whole days that fails before 0001-01-01.
- **Record building.** The feed text is split on `<entry>`. The part before
  the first entry must contain the XML declaration and the Atom `<feed>` root
  element. That check is the script's `assert`, modelled as
  `Err(UnexpectedFormat)`. Each entry fragment gives its `id`, `title`,
  `summary` and the `name` of every `author` block. It is stored under its
  `id`, so a later fragment with the same `id` replaces an earlier one.

Python's string operations are modelled in `Text`:

- `in` is `Contains`;
- `str.index` is `IndexOf`;
- `str.count` is `Count` (non-overlapping occurrences);
- `str.split` is `Split`;
- slicing is `Slice`.

The loops of the script are methods. `Extract.ScanLoop` and
`Extract.GetAttrList` model `get_attr_list`. `Feed.ReadAuthors`,
`Feed.ReadEntry` and `Feed.BuildRecords` model the record loop. Each loop is
proved equal to a specification function, and the properties are lemmas
about those functions.

Files:

- `results.dfy`: `Option` and `Result`.
- `text.dfy`: the string operations.
- `extract.dfy`: `get_attr` and `get_attr_list`.
- `calendar.dfy`: dates, day numbers, weekdays and tokens.
- `window.dfy`: run planning.
- `feed.dfy`: record building.

## Model

| member | source | states |
|---|---|---|
| Text.IndexOf | run.py:11-12 | `str.index`: a found index is the first occurrence of the tag; no index means the tag does not occur |
| Text.Contains | run.py:8 | Python's `t in s` (also run.py:85): some position of `s` starts an occurrence of `t` |
| Text.Count | run.py:20 | the number of non-overlapping occurrences is 0 exactly when the tag does not occur |
| Text.Split | run.py:79 | splitting gives one more part than there are separators |
| Text.JoinSplit | run.py:79 | joining the parts of a split with the separator gives back the text |
| Text.SplitPiecesFree | run.py:79-80 | no part of a split contains the separator |
| Text.Slice | run.py:13 | a Python slice: the characters from `lo` to `hi` when they are in order and in range, `""` when `hi <= lo` |
| Extract.GetAttr | run.py:6-13 | a missing-opening-tag error exactly when `<attr>` does not occur; a missing-closing-tag error exactly when `<attr>` occurs and `</attr>` does not; otherwise the text from the end of the first `<attr>` to the first `</attr>` (searched from the start), or `""` when that closing tag comes first |
| Extract.TakePair | run.py:21-24 | one pass of the `get_attr_list` loop: the item between the first opening tag and the first closing tag, and the text after that closing tag, or the error of the tag that is missing |
| Extract.TakePairAgrees | run.py:21-24 | a pass succeeds exactly when `get_attr` of the remaining text does, fails with its error, extracts its value, and keeps the text after the first closing tag |
| Extract.GetAttrRoundTrip | run.py:11-13 | for a tag name without `<` or `/`, with a prefix free of both tags and an item free of the closing tag, `get_attr` of prefix, tag pair, item and suffix returns the item |
| Extract.ScanLoop | run.py:20-24 | the loop with `n` passes computes the pass-by-pass scan: each pass appends the first pair's item and continues after the closing tag, and the first failing pass ends it with that pass's error |
| Extract.GetAttrList | run.py:16-25 | `get_attr_list` is the scan with one pass per opening tag of the original text; it returns `[]`, not an error, when there is no opening tag; a normal return has as many items as opening tags |
| Extract.ScanPairsLength | run.py:20-23 | a scan that returns normally has appended exactly one item per pass |
| Extract.AttrListRoundTrip | run.py:20-24 | for a tag name without `<` or `/` and items free of both tags, `get_attr_list` of the concatenated `<attr>item</attr>` pairs returns the items in document order |
| Extract.CountWrap | run.py:20 | for a tag name without `<` or `/`, in concatenated tag pairs of tag-free items, the opening tags are counted once per item |
| Calendar.PrevDay | run.py:65 | the day before a date other than 0001-01-01 is a valid date whose day number is one less |
| Calendar.Ordinal | run.py:65 | `toordinal`, the day number that date arithmetic works on: it lies after the days of all earlier years and within the days of the date's own year |
| Calendar.Weekday | run.py:45 | `weekday()`, also at run.py:51: the weekday of the date's day number, between 0 (Monday) and 6 (Sunday) |
| Calendar.MinusDays | run.py:65 | `d - timedelta(days=n)` fails exactly when the result would precede day 1; otherwise it is a valid date `n` day numbers earlier |
| Calendar.FirstDay | run.py:65 | only 0001-01-01 has day number 1 |
| Calendar.OrdinalInjective | run.py:65 | a day number names at most one valid date, so the date `n` days earlier is unique |
| Calendar.Digits | run.py:64-65 | zero-padded rendering has the given width, only digits, and reads back as the number |
| Calendar.DateToken | run.py:64-65 | `strftime("%Y%m%d") + "0000"`: twelve characters ending in `0000` (the digits and the fields are `DateTokenShape`) |
| Calendar.DateTokenShape | run.py:64-65 | a token has 12 digits, ends in `0000`, and its year, month and day fields read back as the date |
| Calendar.DateTokenInjective | run.py:64-65 | different dates have different tokens |
| Window.PlanRun | run.py:44-65 | `Skip` exactly on weekday 5 or 6; a rejected cap exactly when a weekday run asks for more than 10000 results; an out-of-range error exactly when the window would reach before 0001-01-01; in every other case a query plan, with a span of 3 days on Monday and 1 day on other weekdays, `today` the token of the day, and `yesterday` the token of the date that many days earlier |
| Window.WindowStartsOnPreviousWeekday | run.py:48-52 | the window starts on the previous weekday (Friday for a Monday run), and every day strictly inside it is a weekend day |
| Feed.ReadAuthors | run.py:93 | the comprehension loop over `author` blocks succeeds exactly when every block has a `name`, and then returns one name per block, name k being block k's `name`; it computes `AuthorNames`, whose first-error property is `AuthorNamesFirstError` |
| Feed.GatherOk | run.py:93 | a left-to-right comprehension over extractions succeeds exactly when each extraction does, and then holds one value per extraction, in order |
| Feed.GatherFirstError | run.py:93 | a failing comprehension reports the error of its first failing extraction, every earlier one succeeding |
| Feed.AuthorNamesOk | run.py:93 | the author names succeed exactly when every block has a `name`; then there is one name per block, and name k is block k's `name` |
| Feed.AuthorNamesFirstError | run.py:93 | failing author names report the error of the first block whose `name` cannot be extracted |
| Feed.ReadEntry | run.py:90-93 | one pass of the record loop succeeds exactly when the `id`, `title` and `summary` extractions, the `author` list and every author's `name` succeed; then the key is the `id` value, the record holds the `title` and `summary` values, and the authors are the `name` of each `author` block, one per block in order |
| Feed.EntryOfFields | run.py:90-94 | the same two facts about the specification `EntryOf` of one pass: success exactly when every extraction succeeds, and then the key and record hold the extracted values |
| Feed.BuildRecords | run.py:79-94 | the whole step computes the specification `FeedRecords`: split, preamble check, then the loop over the parsed fragments |
| Feed.CollectErrSticks | run.py:89-94 | once a fragment fails, the loop ends with that error |
| Feed.CollectOk | run.py:89-94 | the loop succeeds exactly when every fragment parses |
| Feed.CollectFirstError | run.py:89-94 | a failing loop reports the error of the first fragment that does not parse, and every earlier fragment parses |
| Feed.CollectErrIff | run.py:89-94 | the loop fails with `e` exactly when some fragment fails with `e` and every earlier fragment parses |
| Feed.EntryFirstError | run.py:89-94 | the loop over the entry fragments fails with `e` exactly when the first entry fragment that does not parse fails with `e` |
| Feed.CollectKeys | run.py:94 | the keys of the map are exactly the keys of the parsed fragments |
| Feed.CollectLastWins | run.py:94 | for a key no later fragment repeats, the map holds that fragment's record |
| Feed.EntryKeys | run.py:88-94 | the keys of the map are exactly the `id` values of the entry fragments |
| Feed.EntryLastWins | run.py:88-94 | the map holds, under an entry's `id`, the record of the last fragment with that `id` |
| Feed.FeedRecordsHeader | run.py:79-86 | the feed is rejected as unexpected exactly when the text before the first `<entry>` lacks the XML declaration and Atom root |
| Feed.FeedKeys | run.py:79-94 | in a feed that yields records, the keys of the map are exactly the `id` values of the entry fragments after the preamble |
| Feed.FeedLastWins | run.py:79-94 | in a feed that yields records, an entry fragment whose `id` no later fragment repeats supplies the record stored under that `id` |
| Feed.FeedFirstError | run.py:79-94 | a feed is rejected with entry error `e` exactly when its preamble holds the header and the first entry fragment that does not parse fails with `e` |
| Feed.FeedRecordsOk | run.py:79-94 | a feed that yields records has the expected preamble, and its map is the loop's map over the fragments after the preamble |

## Left out

- Fetching the feed with `urllib.request.urlopen` and decoding the bytes as UTF-8 (run.py:71-75) are network I/O. The model starts from the decoded feed text.
- Building the query URL (run.py:61, 68-70) is string formatting that only feeds the network call.
- `datetime.today()` (run.py:40) reads the system clock. The date of the run is a parameter of `Window.PlanRun`.
- `datetime.strptime` (run.py:42) is library parsing. The model takes an already valid `Date`.
- `sys.exit(0)` (run.py:46) ends the process. The model returns `Skip` instead.
- The hard-coded `day` and `max_results` (run.py:31, 33) are inputs of `Window.PlanRun`, not constants. The `category` (run.py:32) only feeds the query URL, which is left out.
- Under `python -O` the `assert` on the preamble (run.py:83-86) is skipped. The model always performs the check.
- Calendar.DateToken: pads years below 1000 to four digits. `strftime("%Y")` does not pad on every platform.
- Extract.GetAttr: also fails when the opening tag is present but the closing tag is not, because `str.index` raises. So "an error exactly when the opening tag is absent" does not hold for the code. The contract states the two error cases as the code has them.
- Feed.BuildRecords: the map keeps no order. A Python `dict` keeps insertion order: a repeated `id` keeps the position of its first fragment and takes the later value. The model does not capture the order of the records, only which key maps to which record.
- Nothing after the `# run filters` comment (run.py:97-98) is modelled: no filtering or rendering code exists there.

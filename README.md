# ISS tracker: epoch queries and nearest-epoch search

This project models the query core of the ISS tracker (`iss_tracker.py`). The tracker serves the
International Space Station's trajectory samples ("epochs", one state vector per
timestamp) over HTTP. It covers:

- **Timestamp conversion** (`get_datetime_from_index` and the format check in `epoch_f`). A timestamp
  text `YYYY-DDDTHH:MM:SS.fffZ` has every `Z` deleted and is parsed with `%Y-%jT%H:%M:%S.%f` as
  UTC. The model parses the fields (`Timestamps.Parse`) and converts them to exact integer
  microseconds since 0001-001T00:00:00 UTC (`Timestamps.ToMicros`). Day-of-year 1 is 1 January. One
  to six fraction digits are right-padded to microseconds.
- **Nearest-epoch search** (`dich_index_finder`, `closest_epoch`). `TemporalIndex.DichIndexFinder`
  is the bisection loop itself. It is proved equal to `TemporalIndex.NearestIndex`, a reference
  left-to-right scan. That scan is proved to find the closest epoch, taking the later one on a
  tie.
- **The `/epochs` window** (`epochs`). `EpochStore.ListEpochs` parses `limit` before `offset`, then
  clamps, then takes the Python slice `epochs[offset : offset + limit + 1]` (`PySlices.Slice`
  models Python's slicing, negative bounds included).
- **Exact lookup** (`epoch_f`). `EpochStore.EpochLookup` checks the format, then returns the first
  state vector whose `EPOCH` text equals the input.
- **The coverage sentence** (`data_time_range`). `EpochStore.TimeRangeMessage` cuts characters
  `[0,4)`, `[5,8)` and `[9,19)` out of the `START_TIME` and `STOP_TIME` metadata texts.

Modules: `Options`, `Digits` (digit strings, the strict integer syntax), `PySlices`,
`Timestamps`, `Epochs` (the state vector record and the chronological-order invariant),
`TemporalIndex`, `EpochStore`.

Where the documentation and the code disagree, the model follows the code:

- The `epochs` docstring (iss_tracker.py:73) promises `limit` epochs. The slice at line 101
  returns `limit + 1` when that many remain, and the test at test_iss_tracker.py:90-93 expects
  two epochs for `limit=1`. `EpochStore.Window` keeps the extra element.
- `data_time_range` cuts `[9:19)`. On `HH:MM:SS.fff` that keeps the first fraction digit
  (`12:00:00.0`). `EpochStore.MetadataPieces` states exactly that.

## Model

| member | source | states |
|---|---|---|
| `TemporalIndex.DichIndexFinder` | iss_tracker.py:224-269 | On a non-empty chronological list, the bisection loop returns an in-range index. That index equals the reference scan's answer. The loop invariants keep `0 <= left <= right < len`, everything left of `left` earlier than the query, and everything right of `right` later than it. `right - left` strictly decreases. |
| `TemporalIndex.NearestIndexIsNearest` | iss_tracker.py:226-233 | The reference answer is as close to the query as every epoch. It is strictly closer than every later epoch, so ties go to the later index. |
| `TemporalIndex.NearestIndexCharacterized` | iss_tracker.py:226-233 | An index is nearest in that sense exactly when it is the reference answer. The answer is unique. |
| `TemporalIndex.WindowIsNearest` | iss_tracker.py:256-269 | The final two-candidate comparison, which returns `right` on equal distances, yields the nearest index overall. |
| `TemporalIndex.ExactHit` | iss_tracker.py:247-251 | On strictly increasing instants, an epoch whose instant equals the query is the answer. This is the early return at the midpoint. |
| `TemporalIndex.TieGoesRight` | iss_tracker.py:266-269 | A query exactly half-way between two neighbours gets the right-hand one. |
| `TemporalIndex.NearestIndex` | iss_tracker.py:224-233 | The reference scan always returns an index inside the list. A one-element list yields 0. |
| `TemporalIndex.ClosestEpoch` | iss_tracker.py:202-221 | The returned state vector belongs to the list and is the one at the nearest index to the supplied instant. |
| `TemporalIndex.SearchFixtures` | test_iss_tracker.py:171-183 | Queried at 2025-002T01:00, the 1-element fixture gives 0. The 2-, 3- and 4-element fixtures give 1. |
| `TemporalIndex.ClosestFixtures` | test_iss_tracker.py:186-195 | For any current instant from 2025-001 on, the [2024, 2025] fixture gives its second epoch. The [2024, 2025, 9999] fixture also gives its second epoch, up to year 5000. |
| `Timestamps.ToMicrosOrder` | iss_tracker.py:247-254 | Converting to microseconds preserves and reflects the field order (year, day, hour, minute, second, fraction). Equal instants mean equal fields. |
| `Timestamps.DaysBeforeNextYear` | iss_tracker.py:286-288 | Each year adds 366 days if it is a Gregorian leap year and 365 otherwise. |
| `Timestamps.ParseFormat` | iss_tracker.py:283-289 | Canonical text of any valid fields passes the format check and parses back to the same fields and instant. |
| `Timestamps.FormatParse` | iss_tracker.py:283-289 | A parsed text with six fraction digits and a capital `T` is exactly the canonical text of its fields. |
| `Timestamps.FractionInRange` | iss_tracker.py:286 | One to six fraction digits, right-padded, always give fewer than 10^6 microseconds. |
| `Timestamps.TrailingZRemoved` | iss_tracker.py:285 | Deleting `Z` from a text whose only `Z` is the trailing marker leaves the rest unchanged. |
| `Timestamps.FixtureInstant` | test_iss_tracker.py:161-168 | `2025-001T00:00:00.001Z` parses to day 1 of 2025 with 1000 µs. Its instant is 739251 days plus 1000 µs after the origin, which is 1 January 2025 at 00:00:00.001 UTC. |
| `Timestamps.Parse` | iss_tracker.py:121 | A text is accepted exactly when it has the fixed-width shape of `%Y-%jT%H:%M:%S.%f` and its fields are in range. The year runs 1-9999, the day up to the year's length, the hour 0-23, the minute and second 0-59. An accepted result always holds valid fields. `Timestamps.ParseFormat`, `Timestamps.FormatParse` and `Timestamps.FixtureInstant` state what it reads. |
| `Timestamps.RemoveZ` | iss_tracker.py:120 | After `replace("Z", "")` no `Z` is left and the text is no longer than before. `Timestamps.TrailingZRemoved` states that nothing else changes when the `Z` is the trailing marker. |
| `Timestamps.FirstFractionDigit` | iss_tracker.py:286 | The first fraction digit of a parsed text is the tenths digit of its microseconds, whatever the number of fraction digits. |
| `Timestamps.ToMicrosRange` | iss_tracker.py:286-288 | Every valid field tuple lies at or after the origin and before 1 January of year 10000. |
| `Timestamps.Instant` | iss_tracker.py:283-289 | The instant of a text that passes the format check lies inside `datetime`'s range of years 1-9999. `Timestamps.ToMicrosOrder` states that it orders texts by their fields. |
| `Timestamps.FixtureParses` | test_iss_tracker.py:107 | Any text `YYYY-001T00:00:00.001Z` with a four-digit year passes the format check and parses to that year's first millisecond. |
| `Epochs.InstantAt` | iss_tracker.py:272-289 | The instant of the epoch at a given index lies inside `datetime`'s range. It is the instant of that epoch's `EPOCH` text. |
| `Digits.ParseInt` | iss_tracker.py:89 | A result is only ever produced from a non-empty text, and a negative one only from a text starting with `-`. A run of ASCII digits reads as its decimal value. Empty text, and text starting with anything but a digit or a sign, is refused. `Digits.ParseIntText` states the round trip. |
| `TemporalIndex.Distance` | iss_tracker.py:257-263 | The distance is zero exactly when the instants coincide. It is the absolute difference. |
| `EpochStore.TimeRangeMessage` | iss_tracker.py:183-199 | The sentence starts with `The data ranges from the ` and is 61 to 95 characters long, whatever the metadata texts are. `EpochStore.TimeRangeReportsFields` states its contents. |
| `EpochStore.LookupBadFormat` | test_iss_tracker.py:103-105 | `a_bad_time_format` is refused with the format message. |
| `EpochStore.LookupMissingEpoch` | test_iss_tracker.py:107-111 | `2000-001T00:00:00.001Z` is well formed. On a dataset without that exact `EPOCH` text it gets the not-found message. |
| `Epochs.AscendingPairwise` | iss_tracker.py:215 | A list sorted by ascending epoch, pair by pair, is strictly increasing between any two positions. |
| `Epochs.ChronologicalByFields` | iss_tracker.py:215 | A list is chronological exactly when its `EPOCH` fields are in strictly increasing field order. |
| `Epochs.DistinctEpochTexts` | iss_tracker.py:126 | In a chronological list no two positions share an `EPOCH` text. |
| `Digits.ParseIntText` | iss_tracker.py:88-95 | The text of every integer is accepted as that integer. |
| `Digits.ParseIntRefuses` | iss_tracker.py:88-95 | A text with a non-digit after its first character is refused. |
| `PySlices.Slice` | iss_tracker.py:101 | For in-range non-negative bounds the slice is the ordinary subsequence. Past the end it is cut short. Reversed bounds give an empty result, and so does a start at or past the end. |
| `EpochStore.Window` | iss_tracker.py:97-101 | For `offset, limit >= 0`, the result is `epochs[offset .. min(offset+limit+1, len))`. That is `limit+1` epochs when available and the tail otherwise. It is empty when `offset >= len`. |
| `EpochStore.ClampIsInert` | iss_tracker.py:97-101 | For non-negative parameters, the clamp at lines 98-99 does not change the slice. |
| `EpochStore.ListEpochs` | iss_tracker.py:83-101 | An unparsable `limit` gives the invalid-limit message, whatever `offset` is. A valid `limit` with an unparsable `offset` gives the invalid-offset message. Otherwise the reply is a listing drawn from the dataset. Both messages are replies, not errors. |
| `EpochStore.ListEverything` | iss_tracker.py:73-86 | With no parameters, the whole dataset is listed. |
| `EpochStore.ListWindow` | iss_tracker.py:85-101 | Any `limit` and `offset` texts that `int()` reads as non-negative numbers (a `+` sign included) list the epochs from rank `offset` on. The listing holds `limit + 1` of them, or runs to the end. It is empty when `offset` is past the end. |
| `EpochStore.ListWindowText` | iss_tracker.py:85-101 | The same holds for the plain decimal texts of the two numbers. |
| `EpochStore.ListOneAfterFirst` | test_iss_tracker.py:90-93 | `limit=1&offset=1` on at least three epochs lists exactly epochs 1 and 2. |
| `EpochStore.ListHugeLimit` | test_iss_tracker.py:95-98 | A `limit` of at least the dataset's length lists the whole dataset. |
| `EpochStore.Matching` | iss_tracker.py:126 | The comprehension keeps only dataset entries with that exact `EPOCH` text. It is empty exactly when no entry has it. Its head is the first such entry. |
| `EpochStore.EpochLookup` | iss_tracker.py:115-132 | Malformed text, and only malformed text, gives `MalformedTimestamp`. Well-formed text with no textual match, and only that, gives `EpochNotFound`. A success is the first state vector whose `EPOCH` text equals the input. No nearby epoch is ever substituted. |
| `EpochStore.LookupOwnEpoch` | test_iss_tracker.py:112-118 | In a chronological dataset, every epoch is found by its own `EPOCH` text. |
| `EpochStore.NearestIsLookedUp` | iss_tracker.py:169-173 | The `EPOCH` text of the epoch nearest to any instant looks up that same epoch. This is what `/now` relies on. |
| `EpochStore.LookupAgreesWithSearch` | iss_tracker.py:126-132 | A successful exact lookup returns the epoch the nearest search finds at the same instant. |
| `EpochStore.MetadataPieces` | iss_tracker.py:193-198 | On a parsed metadata timestamp, the three slices are the 4-digit year field, the 3-digit day field, and `HH:MM:SS.` plus the first fraction digit. That digit is the tenths digit of the parsed microseconds. |
| `EpochStore.TimeRangeReportsFields` | iss_tracker.py:183-199 | The coverage sentence embeds the day, year and clock of `START_TIME`, then those of `STOP_TIME`. |

## Left out

- `load_data`, `retrieve_data` and `main` (iss_tracker.py:28-67, 292-303) are left out. They are Redis, `requests` and `xmltodict` I/O. The model takes the loaded list of state vectors and the metadata texts as parameters. Note that `load_data` logs a non-200 response and goes on parsing the body anyway (lines 42-47).
- Flask routing, `request.args`, the global 500 handler (lines 23-25), logging and `print` are left out. The lookup's failures are a `LookupResult` value carrying the exact message text (`EpochStore.ErrorText`), not an exception.
- `epoch_speed` and `now` (lines 135-173) are left out because the speed is floating-point numerics (`float()`, `np.sqrt`). The part of `now` that does not use floats is covered by `EpochStore.NearestIsLookedUp`.
- The wall-clock read in `closest_epoch` (line 212) is not modelled. The current instant is a parameter of `TemporalIndex.ClosestEpoch`.
- TemporalIndex.DichIndexFinder: compares exact integer microsecond distances. The source compares the float seconds of `total_seconds()`, whose rounding is not modelled.
- TemporalIndex.DichIndexFinder: requires a non-empty list. On an empty list the source crashes indexing at line 257.
- TemporalIndex.DichIndexFinder: requires strictly increasing epochs. The source assumes this of the dataset (line 215) and does not check it.
- Timestamps.Parse: accepts only the fixed field widths `YYYY-DDDTHH:MM:SS.` followed by 1 to 6 ASCII fraction digits, with `T` or `t` as `strptime` ignores case. `strptime` also accepts 1- and 2-digit forms of the day, hour, minute and second fields, and Unicode digits.
- Timestamps.Parse: rejects day 366 of a common year. `strptime` rolls that day into 1 January of the next year.
- Digits.ParseInt: accepts an optional sign followed by ASCII digits. Python's `int()` also accepts surrounding whitespace, underscores between digits and non-ASCII digits.

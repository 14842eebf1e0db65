# sbahn-bot: station lookup, timetable decoding, service messages, departure board

A Dafny model of the deterministic core of `sbahn-bot.py`, a Telegram bot for
the Munich S-Bahn. The model covers five parts:

- **Normalisation** (`Text`). `_norm` folds diacritics away, lower-cases
  and collapses whitespace. Diacritic folding is a per-character parameter
  (`Folding`), because the Unicode tables are not modelled. Lower-casing and
  the whitespace rules (`\s`, `str.strip`) are concrete.
- **Station lookup** (`Stations`). This part covers:
  - the alias table of `_apply_aliases`;
  - the additive score and the argmax loop of `_pick_best_station`, where
    the first record with a strictly greater score wins;
  - the four-step search cascade of `get_station_id_and_name`.

  The station search is an uninterpreted oracle, `string -> seq<StationRecord>`.
- **Timestamp decoding** (`DbTime`). `parse_db_time_to_aware_dt` cuts the
  `yymmddHHMM` code into five slices and reads each with Python's `int()`.
  The model includes `int()`'s sign and underscore rules and its own
  whitespace set: that of `str.isspace` without U+001C to U+001F. It
  then applies the range checks of `datetime.datetime`, including
  days-in-month and leap years. Any exception is `None`. A wall-clock
  minute stamp orders decoded times as Python compares datetimes that share
  one tzinfo.
- **Service messages** (`Messages`). `is_active` is a loop with an early
  return. `filter_line_messages` fills the `seen` dictionary in nested
  loops, then sorts it newest first. The dictionary keeps insertion order,
  and a replaced value keeps its position.
- **Departure board** (`Departures`). This is the block of the departure
  handler that:
  - turns timetable stops into `(line, time, destination)` rows;
  - keeps S-Bahn trains leaving within the next hour;
  - sorts the rows by time and shows the first twelve.

Python's `list.sort` and `sorted` are stable. They are modelled as a
functional insertion sort on an integer key (`Sorting`).

### Behaviour of the code worth noting

- **Short codes.** A nine-character departure code decodes.
  `code[8:10]` is then the single last digit, and `int()` accepts it
  (`DbTime.NineCharacterCode`). Only codes of eight characters or fewer
  are rejected for being short.
- **Signed years.** A minus sign in the year slice is accepted:
  `int("-5")` is `-5`, so the year is 1995 (`DbTime.SignedYear`).
  Surrounding whitespace in a slice is accepted too: `" 5"` is read as 5.
- **Destination.** The destination is the text after the last `|`, even
  when that text is empty (a path ending in `|` gives an empty destination).
- **First EVA number without a `number` key.** If the picked record's
  first `evaNumbers` entry has no `number`, `best["evaNumbers"][0]["number"]`
  raises `KeyError`. The lookup then ends with that exception, and the
  remaining searches are not tried (`Stations.StationLookup.MissingNumber`).

## Model

| member | source | states |
|---|---|---|
| Text.LowerChar | sbahn-bot.py:75 | the result is never an upper-case letter; a non-upper-case character is unchanged; whitespace stays whitespace |
| Text.Lower | sbahn-bot.py:75 | `lower()` keeps the length, leaves no upper-case letter, changes only upper-case letters and keeps whitespace positions |
| Text.StripMarksAscii | sbahn-bot.py:73-74 | under a folding that fixes ASCII, diacritic stripping leaves an ASCII string unchanged |
| Text.SkipFrom | sbahn-bot.py:76 | a position from `i` to the end that is the end or holds a non-whitespace character (`SkipFromSpaces` proves that it is the first such) |
| Text.SkipBack | sbahn-bot.py:76 | a position at or before `j` that is 0 or follows a non-whitespace character (`SkipBackSpaces` proves that it is the last such) |
| Text.SkipFromSpaces | sbahn-bot.py:76 | everything `SkipFrom` skips is whitespace |
| Text.SkipBackSpaces | sbahn-bot.py:76 | everything `SkipBack` skips is whitespace |
| Text.TrimLeft | sbahn-bot.py:76 | a suffix of the input that does not start with whitespace, and shorter when the input does |
| Text.TrimLeftDropsSpaces | sbahn-bot.py:76 | the prefix `TrimLeft` drops is all whitespace |
| Text.Trim | sbahn-bot.py:76 | `strip()` leaves no whitespace at either end |
| Text.TrimSlice | sbahn-bot.py:76 | `strip()` returns a contiguous slice, and everything before and after it is whitespace |
| Text.TrimFixesEdges | sbahn-bot.py:76 | a string without whitespace at its ends is its own `strip()` |
| Text.SolidAppend | sbahn-bot.py:76 | the non-whitespace characters of a concatenation are those of the parts |
| Text.SolidOfSpaces | sbahn-bot.py:76 | a string of whitespace has no non-whitespace characters |
| Text.TrimKeepsSolid | sbahn-bot.py:76 | `strip()` keeps every non-whitespace character, in order |
| Text.SqueezeSolid | sbahn-bot.py:76 | `re.sub(r"\s+", " ", s)` keeps every non-whitespace character, in order |
| Text.SqueezeShape | sbahn-bot.py:76 | after the substitution all whitespace is single plain spaces; it starts with a space exactly when the input starts with whitespace; it is empty exactly when the input is |
| Text.TrimLeftUnique | sbahn-bot.py:76 | the leading-whitespace strip of `p + r` is `r` when `p` is all whitespace and `r` does not start with whitespace |
| Text.SqueezeSpaces | sbahn-bot.py:76 | a non-empty run of whitespace on its own becomes exactly one space |
| Text.SqueezeAppend | sbahn-bot.py:76 | the substitution distributes over a concatenation whose cut does not split a whitespace run |
| Text.SqueezeRun | sbahn-bot.py:76 | a whitespace run between two words is replaced by exactly one space in its own place: `Squeeze(a + w + b) == Squeeze(a) + " " + Squeeze(b)` |
| Text.SqueezedSlice | sbahn-bot.py:76 | a slice of a squeezed string is squeezed |
| Text.TrimSqueezed | sbahn-bot.py:76 | stripping a squeezed string leaves words separated by single spaces |
| Text.CollapseSpec | sbahn-bot.py:76 | whitespace collapsing yields single-spaced words with nothing at the ends, and keeps every non-whitespace character in order (where the spaces land: `SqueezeRun`) |
| Text.SqueezeFixesSqueezed | sbahn-bot.py:76 | the substitution leaves a squeezed string unchanged |
| Text.CollapseFixesCollapsed | sbahn-bot.py:76 | collapsing leaves a collapsed string unchanged |
| Text.CollapseIdempotent | sbahn-bot.py:76 | collapsing twice is collapsing once |
| Text.LowerIdempotent | sbahn-bot.py:75 | lower-casing twice is lower-casing once |
| Text.NormFixesNormalAscii | sbahn-bot.py:72-77 | `_norm` leaves unchanged a lower-case, single-spaced ASCII string with nothing at the ends |
| Text.IsSpace | sbahn-bot.py:76 | the whitespace of `\s` and `strip()`: the `str.isspace` set (definition) |
| Text.StripMarks | sbahn-bot.py:73-74 | NFKD followed by dropping combining characters, as the concatenation of each character's folding (definition) |
| Text.Squeeze | sbahn-bot.py:76 | `re.sub(r"\s+", " ", s)` (definition; its meaning is `SqueezeSpaces`, `SqueezeAppend`, `SqueezeRun`, `SqueezeShape`, `SqueezeSolid`) |
| Text.Collapse | sbahn-bot.py:76 | `re.sub(r"\s+", " ", s).strip()` (definition; `CollapseSpec`) |
| Text.Norm | sbahn-bot.py:72-77 | `_norm`: fold, lower-case, collapse (definition; `NormFixesNormalAscii`) |
| Text.Contains | sbahn-bot.py:116 | `qn in nn` holds exactly when `qn` occurs at some position of `nn` |
| Text.ReplaceChar | sbahn-bot.py:156 | `replace(a, b)` keeps the length; with `a != b` no `a` is left, and a string without `a` is unchanged |
| Text.ReplaceCharAppend | sbahn-bot.py:156 | the replacement distributes over concatenation |
| Sorting.Insert | sbahn-bot.py:351 | insertion adds exactly the one element: the length grows by one and the multiset gains `x` |
| Sorting.InsertBound | sbahn-bot.py:351 | inserting an element no smaller than a bound keeps every key at or above the bound |
| Sorting.ConsSorted | sbahn-bot.py:351 | a sorted sequence behind an element no larger than any of it is sorted |
| Sorting.InsertSorted | sbahn-bot.py:351 | insertion into a sorted sequence keeps it sorted |
| Sorting.InsertWithKey | sbahn-bot.py:351 | `x` lands before every element with its own key, and the order of other keys is untouched |
| Sorting.SortBy | sbahn-bot.py:351 | the result has the same length and multiset as the input, and is sorted by the key |
| Sorting.SortStable | sbahn-bot.py:70 | stability: for every key, the elements with that key keep their input order |
| Sorting.InsertDistinct | sbahn-bot.py:70 | insertion keeps the projected values pairwise distinct when `x`'s is new |
| Sorting.SortKeepsDistinct | sbahn-bot.py:70 | sorting keeps the projected values pairwise distinct |
| Sorting.SortedPrefixSmallest | sbahn-bot.py:354 | a prefix of a sorted sequence is a sub-multiset of it and holds its smallest keys: nothing left out has a smaller key |
| Stations.Score | sbahn-bot.py:113-117 | the score lies in 0..180, and each rule leaves its own trace: >= 100 iff equal names; the 50 part iff a prefix either way; the 25 part iff containment; a remainder of 5 mod 25 iff `DE-BY`. Read as the digits `r / 100`, `(r / 50) % 2`, `(r / 25) % 2` and `r % 25`, these fix the sum: 100, 50, 25 and 5 for the rules that fired |
| Stations.Eligible | sbahn-bot.py:109-110 | a record with a non-empty `evaNumbers` list (definition; `Pick`, `FirstHit`) |
| Stations.StartsWith | sbahn-bot.py:115 | `a.startswith(b)` as the sequence prefix order (definition; `Score`) |
| Stations.StationScore | sbahn-bot.py:111-117 | the score of a record's `_norm`ed name and region against the normalised query (definition; `Score`, `Pick`) |
| Stations.BestUpTo | sbahn-bot.py:106-120 | after `n` records the loop state is `None` iff none of them has EVA numbers; otherwise it is the first eligible record of greatest score |
| Stations.Pick | sbahn-bot.py:104-121 | `None` exactly when no record has `evaNumbers`; otherwise an eligible record of maximum score, earlier than every other eligible record of that score |
| Stations.PickBestStation | sbahn-bot.py:104-121 | the argmax loop returns `None` exactly when no record is eligible, and otherwise the record `Pick` chooses |
| Stations.ExactMatchWins | sbahn-bot.py:114 | if some eligible record normalises to the query, the pick normalises to the query |
| Stations.ApplyAliases | sbahn-bot.py:79-89 | the table's canonical name when the normalised query is a key; otherwise the query itself, unnormalised; the result is the query or one of the two canonical names |
| Stations.CanonicalNamesNormal | sbahn-bot.py:81-88 | both canonical names are their own `_norm` |
| Stations.CanonicalNamesFixed | sbahn-bot.py:81-88 | a canonical name is left alone by the alias step |
| Stations.ApplyAliasesIdempotent | sbahn-bot.py:79-89 | applying the aliases twice is applying them once |
| Stations.Aliases | sbahn-bot.py:81-88 | the six alias entries (definition) |
| Stations.Resolve | sbahn-bot.py:123-161 | the first hit over the four searches (definition; `FirstHit`, `FirstHitAt`) |
| Stations.Attempts | sbahn-bot.py:132-156 | the four searches in order (definition; `AttemptsScoring`, `FirstHitAt`, `GetStationIdAndName`) |
| Stations.Wildcard | sbahn-bot.py:151-152 | `f"{city}*{q}*"` (definition; `CityStars`) |
| Stations.CityStars | sbahn-bot.py:151-156 | with a city name free of stars, `variant.replace("*", " ")` is the city, a space, the query with its own stars read as spaces, and a space |
| Stations.AttemptsScoring | sbahn-bot.py:151-156 | each of the two Munich searches is scored against `_norm` of `"München "`/`"Muenchen "`, the query with its stars read as spaces, and a trailing space |
| Stations.Answer | sbahn-bot.py:139-140 | a picked record never gives `(None, None)`; the answer is the first entry's EVA number with the record's name, or the query when the name is empty; a missing number is the `KeyError` |
| Stations.FirstHit | sbahn-bot.py:131-161 | `(None, None)` exactly when no search has an eligible record |
| Stations.FirstHitAt | sbahn-bot.py:131-161 | when search `k` is the first with an eligible record, the lookup answers with that search's pick |
| Stations.GetStationIdAndName | sbahn-bot.py:123-161 | the cascade of early returns, with step 3 as a two-item loop, computes the first hit over the four searches |
| DbTime.DigitVal | sbahn-bot.py:166-167 | a character is a decimal digit exactly when its value is 0..9 |
| DbTime.Slice | sbahn-bot.py:166-167 | Python slicing clamps to the end: the length is as Python gives it, and in-range slices are the subsequence |
| DbTime.IsLeap | sbahn-bot.py:168 | the Gregorian leap-year rule (definition) |
| DbTime.ValidDateTime | sbahn-bot.py:168 | the ranges `datetime.datetime` accepts for year, month, day, hour and minute (definition) |
| DbTime.IntSpace | sbahn-bot.py:166-167 | the whitespace `int()` strips (definition) |
| DbTime.DigitGroups | sbahn-bot.py:166-167 | ASCII digits with single underscores between digits, as `int()` accepts (definition; `PyIntUnsigned`, `GroupsValueDigits`) |
| DbTime.GroupsValue | sbahn-bot.py:166-167 | the decimal value of the digits, underscores skipped (definition; `GroupsValueDigits`) |
| DbTime.PyInt | sbahn-bot.py:166-167 | `int()`: strip, one optional sign, digit groups; anything else raises (definition; `PyIntDigits`, `PyIntNegativeDigit`, `SliceIntRange`) |
| DbTime.Combine | sbahn-bot.py:166-168 | the five fields with 2000 added to the year, when all five are integers (definition) |
| DbTime.Fields | sbahn-bot.py:166-167 | the five slices read by `int()` (definition; `FieldsByInts`, `FieldsNone`) |
| DbTime.DaysInMonth | sbahn-bot.py:168 | 28 to 31 days; February has 29 exactly in leap years |
| DbTime.ParseDbTime | sbahn-bot.py:163-170 | never raises: any result is a valid date and time with a year from 1991 to 2099; each slice is read with `int()`'s own whitespace set (`IntSpace`, without U+001C to U+001F) |
| DbTime.IntStrip | sbahn-bot.py:166-167 | the whitespace `int()` ignores is gone from both ends, and nothing is added |
| DbTime.IntStripSlice | sbahn-bot.py:166-167 | the stripped string is a contiguous slice of the input, and everything cut off before and after it is whitespace `int()` ignores |
| DbTime.SliceIntRange | sbahn-bot.py:166-167 | a slice of at most two characters reads as an integer from -9 to 99 |
| DbTime.PyIntUnsigned | sbahn-bot.py:166-167 | a stripped string starting with a digit is an integer exactly when it is digit groups |
| DbTime.GroupsValueDigits | sbahn-bot.py:166-167 | one or two digits are digit groups and spell their decimal value |
| DbTime.PyIntDigits | sbahn-bot.py:166-167 | `int()` of one or two digits is their decimal value |
| DbTime.PyIntNegativeDigit | sbahn-bot.py:166 | `int("-d")` is `-d` |
| DbTime.PyIntReadsShortNumbers | sbahn-bot.py:166-167 | `int()` reads one digit, two digits, and a minus sign followed by a digit as their values |
| DbTime.FieldsByInts | sbahn-bot.py:166-168 | when all five slices read as integers, the fields are `(2000 + yy, mm, dd, HH, MM)` |
| DbTime.ParseDigitCode | sbahn-bot.py:163-170 | a code whose first ten characters are digits decodes to `(2000 + yy, mm, dd, HH, MM)` when those form a valid date and time, and to `None` otherwise |
| DbTime.DigitFields | sbahn-bot.py:166-168 | ten leading digits give the fields `(2000 + yy, mm, dd, HH, MM)` |
| DbTime.ParseShortCode | sbahn-bot.py:167-170 | a code of eight characters or fewer decodes to `None` |
| DbTime.ParseNonInteger | sbahn-bot.py:166-170 | any slice that is not an integer makes the decode `None` |
| DbTime.FieldsNone | sbahn-bot.py:166-167 | one unreadable slice leaves no fields |
| DbTime.RejectsMonth13 | sbahn-bot.py:168-170 | month 13 decodes to `None` |
| DbTime.RejectsFebruary30 | sbahn-bot.py:168-170 | 30 February decodes to `None` |
| DbTime.RejectsHour24 | sbahn-bot.py:168-170 | hour 24 decodes to `None` |
| DbTime.RejectsNonLeapDay | sbahn-bot.py:168-170 | 29 February 2025 decodes to `None` |
| DbTime.RejectsFileSeparator | sbahn-bot.py:166-170 | a year slice `"\x1c5"` raises in `int()`, so the code decodes to `None` |
| DbTime.AcceptsPaddedYear | sbahn-bot.py:166-168 | the code `" 501011200"` decodes to 2005-01-01 12:00, since `int(" 5")` is 5 |
| DbTime.PaddedYearFields | sbahn-bot.py:166-168 | the fields of `" 501011200"` are `(2005, 1, 1, 12, 0)` |
| DbTime.NineCharacterCode | sbahn-bot.py:163-170 | a nine-digit code decodes with its last digit as the minute, when valid |
| DbTime.NineFields | sbahn-bot.py:166-168 | nine digits give the fields with the one-digit minute slice |
| DbTime.SignedYear | sbahn-bot.py:163-170 | `-d` in the year slice decodes to the year `2000 - d`, when valid |
| DbTime.SignedFields | sbahn-bot.py:166-168 | a leading `-d` gives the year field `2000 - d` |
| DbTime.DigitChar | sbahn-bot.py:163-170 | the digit character of a value 0..9 reads back as that value |
| DbTime.Two | sbahn-bot.py:163-170 | two digits that spell a number below 100 |
| DbTime.Encode | sbahn-bot.py:163-170 | the `yymmddHHMM` code of a time is ten digits |
| DbTime.EncodeFields | sbahn-bot.py:166-167 | the slices of an encoded time spell its fields |
| DbTime.ParseEncode | sbahn-bot.py:163-170 | decoding inverts encoding for every valid time from 2000 to 2099 |
| DbTime.YearOfMonths | sbahn-bot.py:168 | the twelve months add up to the year's length |
| DbTime.MonthsGrow | sbahn-bot.py:168 | a later month starts after an earlier month ends |
| DbTime.YearsGrow | sbahn-bot.py:168 | a later year starts after an earlier year ends |
| DbTime.DayNumberInYear | sbahn-bot.py:168 | a valid date's day number lies within its year |
| DbTime.BeforeDayNumber | sbahn-bot.py:168 | an earlier date has a smaller day number |
| DbTime.Stamp | sbahn-bot.py:341 | minutes since 0001-01-01 00:00 on the wall clock (definition; `StampOrder`) |
| DbTime.Before | sbahn-bot.py:341 | field-by-field order of year, month, day, hour and minute, as datetimes sharing a tzinfo compare (definition; `StampOrder`) |
| DbTime.StampOrder | sbahn-bot.py:341 | minute stamps order valid times exactly as datetime comparison does, and ties only equal times |
| Messages.IsActive | sbahn-bot.py:45-54 | true exactly when some duration has truthy `from` and `to` with `from <= now <= to`; an empty list gives false |
| Messages.Truthy | sbahn-bot.py:52 | Python truthiness of a JSON number: present and non-zero (definition; `Covers`, `IsActive`) |
| Messages.Covers | sbahn-bot.py:50-52 | truthy `from` and `to` with `from <= now <= to` (definition) |
| Messages.Active | sbahn-bot.py:45-54 | some duration covers `now` (definition) |
| Messages.Serves | sbahn-bot.py:61 | `transportType` is `SBAHN` or `S` and the label is the wanted line (definition) |
| Messages.Relevant | sbahn-bot.py:60-62 | some line reference serves the line and the message is active (definition) |
| Messages.Title | sbahn-bot.py:63 | `(title or "").strip()` (definition) |
| Messages.Dedup | sbahn-bot.py:58-69 | the values of `seen` after every message (definition; `DedupKept`, `DedupDistinct`, `DedupNewest`, `DedupFirst`) |
| Messages.Selection | sbahn-bot.py:56-70 | the values of `seen` sorted newest first (definition; the `Selection` lemmas) |
| Messages.FindKey | sbahn-bot.py:65 | `title in seen`: the position of the entry with that key, or none when no entry has it |
| Messages.Update | sbahn-bot.py:65-69 | a new key is appended at the end; a known key is replaced in place only by a strictly newer message; every other entry is unchanged |
| Messages.UpdateIdempotent | sbahn-bot.py:60-69 | storing a message again, once per matching line, changes nothing |
| Messages.Select | sbahn-bot.py:70 | the messages at the given positions (definition; `SelectAppend`, `SelectUpdate`) |
| Messages.SelectAppend | sbahn-bot.py:68-69 | appending a position appends its message: a new key's value goes at the end |
| Messages.SelectUpdate | sbahn-bot.py:66-67 | overwriting a position overwrites its message in place: a replaced value keeps its place |
| Messages.StepAt | sbahn-bot.py:65-69 | after storing message `n` every stored position is at most `n` (`StepAtCase` gives the append-or-replace split) |
| Messages.SelectStepAt | sbahn-bot.py:65-69 | storing on positions and reading back is storing the message |
| Messages.DedupAt | sbahn-bot.py:59-69 | every entry is the position of a message already looked at |
| Messages.StepAtCase | sbahn-bot.py:65-69 | a store either appends a fresh key or lands on the one entry of its key |
| Messages.DedupAtStep | sbahn-bot.py:59-69 | one more message is stored when it is kept and skipped otherwise |
| Messages.DedupKept | sbahn-bot.py:59-69 | every entry is a message that names the line and is active |
| Messages.DedupDistinct | sbahn-bot.py:63-69 | no two entries share a stripped title |
| Messages.DedupCovers | sbahn-bot.py:63-69 | every kept message's title has an entry |
| Messages.FreshKey | sbahn-bot.py:65-69 | a title without an entry belongs to no earlier kept message |
| Messages.NewestAppend | sbahn-bot.py:68-69 | a message with a fresh title, appended, is the newest of its title |
| Messages.NewestReplace | sbahn-bot.py:66-67 | a strictly newer message replacing its title's entry keeps every entry the newest of its title |
| Messages.NewestSkip | sbahn-bot.py:66 | a message no newer than its title's entry changes nothing |
| Messages.DedupNewest | sbahn-bot.py:63-69 | each entry has the greatest `publication` among the kept messages of its title |
| Messages.DedupFirst | sbahn-bot.py:66 | every earlier kept message with an entry's title is strictly older, so ties keep the first seen |
| Messages.FilterLineMessages | sbahn-bot.py:56-70 | the loop over the messages and the sort compute `Selection` |
| Messages.StoreMessage | sbahn-bot.py:60-69 | the inner loop over one message's lines stores it under its title exactly when it is relevant, and otherwise leaves `seen` unchanged |
| Messages.SeenStep | sbahn-bot.py:59-69 | after message `i`, the values of `seen` are those before it with the message stored when it is relevant |
| Messages.NewestFirst | sbahn-bot.py:70 | the `reverse=True` sort on `publication`, as the key `-publication` of a stable ascending sort (definition; `SelectionNewestFirst`) |
| Messages.SelectionNewestFirst | sbahn-bot.py:70 | the output is ordered by non-increasing `publication` |
| Messages.SelectionRelevant | sbahn-bot.py:60-62 | every output message is an input message that names the S-Bahn line and is active |
| Messages.SelectionDistinctTitles | sbahn-bot.py:63-69 | no two output messages share a stripped title |
| Messages.SelectionCovers | sbahn-bot.py:59-69 | every relevant input message is represented by an output message with its title that is at least as new |
| Messages.SelectionEntry | sbahn-bot.py:63-70 | each output message is a relevant input message; it is at least as new as every relevant message of its title, and strictly newer than the earlier ones |
| Departures.Micros | sbahn-bot.py:341 | a decoded time on the microsecond timeline of `now_local` (definition; `MicrosOrder`) |
| Departures.MicrosOrder | sbahn-bot.py:341 | microsecond stamps order valid times exactly as datetime comparison does, and ties only equal times |
| Departures.IsSBahn | sbahn-bot.py:332 | `line_code.startswith("S")` (definition; `RowFacts`) |
| Departures.LastSegment | sbahn-bot.py:344 | the text after the last bar separator: a suffix of the path containing no separator, preceded by a separator unless it is the whole path |
| Departures.LastSegmentAfter | sbahn-bot.py:344 | the last segment of `a`, a bar, then `b` is `b` when `b` has no separator |
| Departures.LastSegmentWhole | sbahn-bot.py:344 | a path without separator is its own last segment |
| Departures.Destination | sbahn-bot.py:343-344 | the last segment of a non-empty path, `"Unknown"` for an empty one (definition) |
| Departures.Qualifies | sbahn-bot.py:328-342 | an S-Bahn `tl`, a `dp`, a decoding time and that time within `[now, now + 1h]` (definition) |
| Departures.RowOf | sbahn-bot.py:343-345 | the `(line_code, dt, dest)` tuple of a qualifying stop (definition; `RowFacts`) |
| Departures.Candidates | sbahn-bot.py:325-345 | the rows of the qualifying stops in timetable order (definition; `CandidateSource`, `CandidateComplete`) |
| Departures.RowFacts | sbahn-bot.py:328-345 | a qualifying stop's row has its `S` line, its decoded time within the hour, and the last segment of its path or `"Unknown"` |
| Departures.Board | sbahn-bot.py:347-354 | the sorted rows cut to twelve (definition; the `Board` lemmas) |
| Departures.CollectRows | sbahn-bot.py:325-345 | the loop with its `continue`s appends exactly the rows of the qualifying stops, in timetable order |
| Departures.CandidateSource | sbahn-bot.py:327-345 | every collected row is the row of a stop that has an S-Bahn `tl`, a `dp` whose time decodes, and the time within the hour |
| Departures.CandidateComplete | sbahn-bot.py:327-345 | every qualifying stop contributes its row |
| Departures.DepartureBoard | sbahn-bot.py:325-354 | collect, return early when empty, sort in place and take the first twelve computes `Board` |
| Departures.BoardSize | sbahn-bot.py:347-354 | the board shows twelve rows, or all rows when there are fewer; it is empty exactly when no stop qualifies |
| Departures.Departs | sbahn-bot.py:351 | the sort key `x[1]`, as the minute stamp of the row's time (definition; `BoardSorted`, `StampOrder`) |
| Departures.BoardSorted | sbahn-bot.py:351 | no displayed row departs before the one above it |
| Departures.BoardSource | sbahn-bot.py:327-354 | every displayed row is the row of a qualifying stop |
| Departures.BoardEarliest | sbahn-bot.py:351-354 | the board is a sub-multiset of the collected rows, and no row left off the board departs earlier than a displayed one |

## Left out

- **Telegram.** Handlers, keyboards, message sending, HTML escaping, the
  `strftime` rendering of the board and `safe_send_html`. These are
  presentation and async plumbing.
- **Network I/O.** The `requests` calls of `fetch_messages`,
  `_station_search` and `fetch_xml`, including the `plan` then `fchg`
  fallback. The station search is a function parameter, assumed to answer
  the same query the same way. A status other than 200 gives no hits; a
  search that raises (timeout, connection error, a body that is no JSON)
  and so aborts `get_station_id_and_name` is not represented. The
  timetable and the message list are inputs.
- **XML parsing.** Parsed stops are records: the `c` attribute of `tl`
  (`""` when missing), and the `pt` and `ppth` attributes of `dp` (`""`
  when missing).
- **JSON shapes.** A `null` or non-integer `publication`, and `lines` or
  `incidentDurations` that are `null` or not lists, are not modelled. A
  missing `publication` is 0 and a missing title is `""`. An `evaNumbers`
  entry whose `number` is JSON `null` is not represented: the lookup would
  then return `(None, name)`, while the model has only a present number or a
  missing key.
- **`short_id_for_message`.** It needs SHA-1.
- **Unicode.** NFKD and the combining-character test are a per-character
  `Folding` parameter. Lower-casing is modelled for ASCII and Latin-1 only.
  `int()` accepts only ASCII digits here, although Python also accepts
  other Unicode decimal digits.
- **Clocks and time zones.** `now` is an integer. For `is_active` it is
  the millisecond timestamp; its fractional part is not modelled.
  `is_active` reads the clock on every call, so one pass of
  `filter_line_messages` can see several instants; the model uses one `now`
  for the whole pass. For the board, `nowUs` is the local wall-clock time
  in microseconds, and seconds and microseconds of the current time are
  kept. The `tzinfo` is not
  modelled, because datetimes sharing one tzinfo compare by wall clock.
  The `date`/`hour` strings built for the request URL belong to the
  network call.
- **Empty EVA number.** `on_station_input` treats a falsy EVA number (0)
  as "not found". That caller is outside this model;
  `GetStationIdAndName` returns the number as found.
- **`_norm(None)`.** `s or ""` is not modelled as such. A JSON `null`
  name is read as `""`, which is what `_norm(None)` returns through
  `s or ""`.
- **`if not dt`.** This check never fires on a datetime; the model keeps
  only the `None` case.

# Meeting converter model

A Dafny model of the converter `data-processing/convert_events.py`. The converter turns the
rows of the NLP special interest group's meeting spreadsheet into the meeting records the
website displays. The model covers:

- the date normaliser `parse_date`. It reads a free-form date and writes `DD.MM.YYYY`, and it
  reads slash dates day-first or month-first depending on a cutover of 29 September 2022;
- the text normaliser `clean_text`;
- the row classifiers `determine_session_type` and `is_free_slot`;
- the date-gated policies `get_location_info`, `should_include_detailed_info`,
  `get_abstract_info`, `get_bio_info` and `get_paper_links`;
- the loop of `convert_csv_to_json`. It builds a record per row, skips the rows it cannot use,
  appends the rest in row order, and sorts the list newest first with Python's stable
  `list.sort(reverse=True)`.

Modules:

- `Wrappers`: `Option`.
- `Text`:
  - Python's whitespace set (`str.isspace`, also what `\s` matches);
  - `strip`, whitespace collapsing, `clean_text`;
  - ASCII lower-casing, substring search, `str.split` and `str.join` on one character.
- `Dates`:
  - calendar dates with month lengths and leap years;
  - `datetime.strptime` for the eight formats the converter uses, modelled token by token on
    CPython's regular expressions for `%d`, `%m`, `%Y`, `%B` and `%b`;
  - `strftime("%d.%m.%Y")`;
  - `parse_date` and the properties of the cutover rule.
- `Rows`: the classifiers, the location and detail policies, the record one row yields
  (`RowRecord`), and what every emitted record satisfies (`WellFormed`).
- `Conversion`:
  - the surviving records (`Survivors`);
  - the stable newest-first sort (`SortByKey`, `SortMeetings`);
  - the method `ConvertRows`, which is the imperative loop of `convert_csv_to_json`.

The wall clock is not read. `ConvertRows` and `GetLocationInfo` take today's date as a
parameter. `meeting_date` is a midnight `datetime`, so `meeting_date <= datetime.now()` holds
exactly when the meeting day is on or before today.

The code rejects "15/03/2021":

- its day-first reading falls before the cutover, so it is refused;
- its month-first reading has no month 15;
- none of the fallback formats accepts a slash.

`Dates.LateDayBeforeCutoverRejected` proves this for every such date.

## Model

| member | source | states |
|---|---|---|
| Text.Clean | data-processing/convert_events.py:96-103 | `clean_text`: strip, then replace each whitespace run by one space. It has no contract of its own. Its behaviour is stated by `Text.CleanSpec`, `Text.CleanJoinsWords` and `Text.CleanSplitsIntoWords`. |
| Text.StripSlice | data-processing/convert_events.py:100-102 | `strip` returns the slice of its input between the leading and trailing whitespace runs. The result has no whitespace at either end, and everything cut away is whitespace. |
| Text.StripKeepsContent | data-processing/convert_events.py:100-102 | Stripping loses no non-whitespace character. |
| Text.CleanSpec | data-processing/convert_events.py:96-103 | `clean_text`'s result has no whitespace at either end. Its only whitespace is single plain spaces between other characters. It keeps every non-whitespace character in order. It is empty exactly when the input is blank. |
| Text.CleanFixed | data-processing/convert_events.py:96-103 | Text already in that shape is returned unchanged. |
| Text.WordsAreWords | data-processing/convert_events.py:102 | The words of a text are its maximal runs of non-whitespace characters, in order. Each is non-empty and holds no whitespace. |
| Text.CleanJoinsWords | data-processing/convert_events.py:96-103 | For text that is not blank, `clean_text` is its words joined by single spaces, so every whitespace run between two words becomes one space. |
| Text.CleanSplitsIntoWords | data-processing/convert_events.py:96-103 | For text that is not blank, splitting the cleaned text at its spaces gives back exactly the words of the input. |
| Text.CleanIdempotent | data-processing/convert_events.py:96-103 | Cleaning twice gives the same as cleaning once. |
| Text.ContainsSpec | data-processing/convert_events.py:114 | Python's `sub in s` holds exactly when `sub` occurs at some position of `s`. |
| Text.JoinSplit | data-processing/convert_events.py:218 | Joining the pieces of `split(',')` with commas gives back the original text. |
| Text.SplitJoin | data-processing/convert_events.py:218 | Splitting a comma-join of comma-free pieces gives back those pieces. |
| Text.SplitPiecesFree | data-processing/convert_events.py:218 | No piece produced by `split(',')` contains a comma. |
| Dates.Strptime | data-processing/convert_events.py:86-89 | A date accepted by `strptime` exists in the calendar, with year 1 to 9999 and the day within its month's length. |
| Dates.Format | data-processing/convert_events.py:49 | `strftime("%d.%m.%Y")`: two-digit day, two-digit month and four-digit year, separated by dots. It has no contract of its own. `Dates.FormatRoundTrip` states that it parses back to the same date. |
| Dates.FormatRoundTrip | data-processing/convert_events.py:245-246 | A date written with `strftime("%d.%m.%Y")` parses back, as `%d.%m.%Y`, to the same date. |
| Dates.FirstSome | data-processing/convert_events.py:86-91 | The first successful reading is absent exactly when every reading fails. Otherwise it is a successful reading with only failures before it. |
| Dates.FirstMatch | data-processing/convert_events.py:86-91 | The fallback search returns nothing exactly when every format fails. Otherwise it returns the reading of a format that succeeds while every earlier format fails. |
| Dates.ParseDate | data-processing/convert_events.py:21-94 | Blank input gives None. Input that already reads as `%d.%m.%Y` is returned trimmed and otherwise unchanged. Every result parses as `%d.%m.%Y`, which line 246 relies on. A result that differs from the trimmed input is the canonical zero-padded form of its date. The remaining inputs are decided by `Dates.SlashDateCutoverRule` (a slash), `Dates.DottedInvalidRejected` (a dot) and `Dates.FallbacksDecide` (neither). |
| Dates.NumericNeedsSeparator | data-processing/convert_events.py:86-89 | A numeric format never matches text that lacks its separator. |
| Dates.NumericRejectsSeparator | data-processing/convert_events.py:38-89 | A numeric format never matches text holding a '.', '/' or '-' other than its own separator, since no day, month or year token holds one. |
| Dates.NamedRejectsSeparator | data-processing/convert_events.py:81-89 | `%d %B %Y` and `%d %b %Y` never match text holding a '.', '/' or '-'. |
| Dates.FallbacksRejectMark | data-processing/convert_events.py:81-91 | None of the five fallback formats matches text holding a dot or a slash. |
| Dates.SlashDateCutoverRule | data-processing/convert_events.py:35-78 | For any text holding a slash: a day-first reading strictly after 29 Sep 2022 is taken. Otherwise a month-first reading on or before that day is taken. Otherwise the result is None. |
| Dates.DottedInvalidRejected | data-processing/convert_events.py:38-94 | Text holding a dot that does not read as `%d.%m.%Y` gives None, since neither slash format nor any fallback can read it. |
| Dates.NonexistentDottedDateRejected | data-processing/convert_events.py:38-94 | A zero-padded dotted date that names no calendar day (such as "31.02.2023") gives None. |
| Dates.DayFirstAfterCutover | data-processing/convert_events.py:44-49 | A zero-padded day-first slash date after the cutover (such as "03/04/2023") becomes the same date with dots. |
| Dates.LateDayBeforeCutoverRejected | data-processing/convert_events.py:44-94 | A slash date on or before the cutover whose day exceeds 12 (such as "15/03/2021") gives None. |
| Dates.BothReadingsOnWrongSide | data-processing/convert_events.py:44-94 | A slash date whose day-first reading is on or before the cutover and whose month-first reading is after it (such as "10/01/2022") gives None. |
| Dates.FallbacksOnly | data-processing/convert_events.py:44-91 | For text without dots or slashes, only the fallback loop decides the result. It is the rendering of the first fallback reading, or None when every fallback fails. |
| Dates.FallbacksDecide | data-processing/convert_events.py:81-91 | For text without dots or slashes, the result is the rendering of a date `d` exactly when some fallback format reads `d` and every earlier fallback fails. |
| Dates.FallbacksExhausted | data-processing/convert_events.py:81-94 | For text without dots or slashes, the result is None exactly when all five fallback formats fail. |
| Dates.DashDateIsDayFirst | data-processing/convert_events.py:81-91 | A zero-padded dash date (such as "05-01-2023") is read day-first even when `%m-%d-%Y` would also accept it. |
| Rows.DetermineSessionType | data-processing/convert_events.py:105-119 | `determine_session_type`. It has no contract of its own. `Rows.SessionTypeRule` states its rule. |
| Rows.SessionTypeRule | data-processing/convert_events.py:105-119 | The result is a journal club exactly when the Type of Session column names one, or when it names no known type and the event name mentions "reading group" or "journal club". An explicit seminar type wins over any hint in the event name. |
| Rows.IsFreeSlot | data-processing/convert_events.py:121-128 | `is_free_slot`. It has no contract of its own. `Rows.FreeSlotRule` states its rule in terms of the raw cells. |
| Rows.FreeSlotRule | data-processing/convert_events.py:121-128 | A row is a free slot exactly when its presenter or its event name reads "free for booking" once cleaned and lower-cased, or when both columns are blank (empty or only whitespace). |
| Rows.GetLocationInfo | data-processing/convert_events.py:130-155 | The location is empty exactly when the meeting is on or before today. |
| Rows.LocationPolicy | data-processing/convert_events.py:143-155 | For a future meeting: a room gives "<room> (Alan Turing Institute) & online", with or without a Zoom link. A Zoom link alone gives "Online (Zoom)". Neither gives "TBA". |
| Rows.ShouldIncludeDetailedInfo | data-processing/convert_events.py:157-163 | `should_include_detailed_info`: true exactly for a meeting strictly after 28 Jul 2025. It has no contract of its own. `Rows.DetailsHiddenUntilCutover` and the three detail helpers state its effect. |
| Rows.DetailsHiddenUntilCutover | data-processing/convert_events.py:157-163 | A meeting on or before 28 Jul 2025 gets no abstract, bio or paper links. |
| Rows.GetAbstractInfo | data-processing/convert_events.py:165-185 | The abstract is absent exactly when details are hidden, or when the column is blank for a journal club. Otherwise it is the cleaned column, or "TBA" for a blank seminar abstract. |
| Rows.GetBioInfo | data-processing/convert_events.py:187-203 | A bio is present exactly for a seminar after the detail cutover whose bio column is not blank. It is then the cleaned column. |
| Rows.GetPaperLinks | data-processing/convert_events.py:205-220 | A link list is present only after the detail cutover. It is never empty, and every link is non-empty, trimmed and comma-free. |
| Rows.TrimmedLinks | data-processing/convert_events.py:218 | Every kept link is non-empty and has no whitespace at either end. |
| Rows.LinksAtIndices | data-processing/convert_events.py:218 | There is one link per non-blank piece. The `k`-th link is the trimmed piece at the `k`-th non-blank position. |
| Rows.IndicesIncrease | data-processing/convert_events.py:218 | The non-blank positions are listed in increasing order, so the links keep the order of the pieces. |
| Rows.IndicesCover | data-processing/convert_events.py:218 | Every piece that is not blank after trimming has its position listed, so no link is dropped. |
| Rows.TrimmedLinksPieces | data-processing/convert_events.py:218 | The links are exactly the trimmed non-blank pieces, in their original order. |
| Rows.PaperLinksArePieces | data-processing/convert_events.py:214-219 | With details shown, the links are the trimmed non-blank pieces of the cleaned Paper Links column split at its commas, in order. No list is produced exactly when every such piece is blank. |
| Rows.LinksCommaFree | data-processing/convert_events.py:218 | Trimming comma-free pieces leaves comma-free links. |
| Rows.PaperLinksKeepText | data-processing/convert_events.py:214-219 | With details shown, the links together hold exactly the characters of the Paper Links column other than whitespace and commas. When no list is produced, the column has no such character. |
| Rows.RowRecord | data-processing/convert_events.py:238-297 | The record the loop body builds for one row, or None when it skips the row. It has no contract of its own. `Rows.RowKept`, `Rows.RecordFromRow` and `Rows.RecordWellFormed` state when it is present and what it holds. |
| Rows.RowKept | data-processing/convert_events.py:240-260 | A row yields a record exactly when its date is recognised and it is not a free slot. The re-parse guard and the empty presenter-and-title check never skip a row on their own. |
| Rows.RecordWellFormed | data-processing/convert_events.py:262-296 | Every emitted record satisfies all of the following. Its date parses. Its presenter and title are cleaned, non-empty and not "free for booking". Its location is present exactly for a future meeting. Abstract, bio and links are absent up to the detail cutover, and a later seminar always has an abstract. A bio belongs only to a seminar. Links are well formed. Optional texts are cleaned and non-empty. |
| Rows.RecordFromRow | data-processing/convert_events.py:240-294 | An emitted record carries the normalised date, the classified session type, and the cleaned presenter and event name, with "TBA" standing in for at most one of them. It has a location exactly for a future meeting. It has authors exactly when the authors column is not blank, and then they are the cleaned column. Its abstract, bio and paper links are those the three detail helpers give for the record's own date and session type. |
| Conversion.KeptMembers | data-processing/convert_events.py:241-296 | The loop keeps exactly the records it builds, never more than one per row. |
| Conversion.SurvivorsFromRows | data-processing/convert_events.py:237-297 | A record is appended exactly when some row yields it. There are at most as many records as rows. |
| Conversion.SurvivorsWellFormed | data-processing/convert_events.py:237-297 | Every appended record is well formed. |
| Conversion.InsertStable | data-processing/convert_events.py:312 | Inserting a record keeps it ahead of the later records with the same date. |
| Conversion.SortByKeySpec | data-processing/convert_events.py:312 | The sort orders newest first, is a permutation of its input, and keeps the records of each date in input order. |
| Conversion.SortMeetings | data-processing/convert_events.py:310-314 | The sort at line 312, with the list left unchanged when a key fails to parse (line 313). It has no contract of its own. `Conversion.SortByKeySpec` and `Conversion.OutputSpec` state its properties. |
| Conversion.OutputSpec | data-processing/convert_events.py:310-314 | Every appended record's sort key parses, so the sort always takes effect. The output is newest first, a permutation of the appended records, stable, and holds only well-formed records. |
| Conversion.ConvertRows | data-processing/convert_events.py:237-314 | The loop and the sort produce the stable newest-first ordering of the surviving records. The output is sorted, a permutation of the survivors, order-preserving within each date, and made only of well-formed records. |

## Left out

- Reading the CSV file, `csv.Sniffer` delimiter detection and `csv.DictReader` decoding are not modelled. The input is a sequence of already-decoded rows, each a map from column name to text. A missing column and a missing value both read as `""`, which is how every helper treats them.
- `json.dump`, the key order and layout of the output file, every `print` diagnostic, and `main`'s argument handling and exit status are I/O and are not modelled. A record is a datatype whose absent keys are `None`. Its `type` value is `SessionType.Name()`.
- `datetime.now()` is replaced by the `today` parameter.
- The handlers for a missing or unreadable file and for a failed write (lines 302-308, 326-328) are I/O.
- The per-row handler at line 299 is modelled as a skip of a row whose normalised date does not re-parse. `Rows.RowKept` proves that this never happens.
- The handler at line 313 is modelled as the list left unchanged when a sort key fails. `Conversion.OutputSpec` proves that this never happens either.
- Conversion.SortMeetings: Python's in-place sort is modelled by a stable insertion sort on values, not by an in-place algorithm. Any stable sort by the same key returns the same list, so the result is the one the source produces.
- Dates.Strptime:
  - `\d` is modelled as the ASCII digits only. CPython also accepts other Unicode decimal digits.
  - Month names use an English table compared after ASCII lower-casing. The locale and Unicode case folding are not modelled.
  - For `%d %B %Y` and `%d %b %Y`, text with one blank before a one-digit day is rejected, although CPython's `%d` pattern would accept it. `parse_date` only passes trimmed text, so the outcome is the same.
- Dates.Format: assumes `%Y` writes years below 1000 zero-padded to four digits. CPython 3.13 does this on Linux; some older platforms write fewer digits.
- Text.Lower: lowers ASCII letters only, where Python's `str.lower` also lowers other letters. The comparisons it feeds use ASCII phrases, but U+212A KELVIN SIGN lowers to the ASCII `k`. So "FREE FOR BOOKING" with its K written as U+212A is a free slot in the converter but not in the model, and "TALK" written that way is a seminar type there but not here.
- `Dates.ParseDate` models the two tries at lines 62-78 once. They repeat the tests of lines 44-60 and cannot change the result.
- `Rows.DetermineSessionType` models the TBA branch at line 116 as part of the default. It returns the same `seminar` as the fallback.

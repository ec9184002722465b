# Cursor AI usage analytics — a verified model

This project models the record-handling and analytics core of the Cursor AI usage dashboard in Dafny:

- **Usage API client** (`CursorApi`): it builds the request body for a reporting window. It normalises each entry of the API's `data` list into a metrics record, with defaults and a keep/drop rule. It converts the API's date values into the fixed-width UTC text `YYYY-MM-DDThh:mm:ss.ffffffZ`, reading epoch numbers above 10^10 as milliseconds.
- **Calendar arithmetic** (`Timestamps`): the conversions above rest on Python's `datetime`. This module models it in integer arithmetic:
  - proleptic Gregorian calendar;
  - years 1 to 9999;
  - epoch microseconds to date and time, and back;
  - the `strftime`/`strptime` pair for that fixed format.
- **SQLite store** (`Database`, class `MetricsDb`):
  - the manager lookup;
  - a save that enriches records, upserts them one by one on their `(date, email)` key and logs a metadata row;
  - the "current file" query;
  - the load of the metrics table;
  - the wipe;
  - the back-fill of manager, director and department from `manager_data`.

  Tables are sequences of rows in id order, and the autoincrement counters are fields of the class.
- **Dashboard page** (`Analysis`): over the uploaded rows, it models:
  - the inclusive date filter;
  - the per-email aggregation (any active day, summed requests);
  - the split into users who never used the service and users who did;
  - the table of distinct active days and its ranking;
  - the page's consistency check of the user counts.
- **Admin panel** (`AdminPanel`):
  - the credential check against two environment variables;
  - the `authenticated` session flag under login and logout;
  - the upload, which replaces the whole metrics collection.

`Wrappers` holds the `Option` and `Result` types. `MetricsFrame` holds the record type shared by the API client and the store.

The only authentication in the code is the admin panel's credential check and its boolean session flag; there are no tokens, aliases or OAuth.

Some behaviour of the code is reproduced as written:

- **Python equality with `None`.** A string never equals `None`. So when either admin variable is unset, no login succeeds.
- **Empty upload.** `insert_many` refuses an empty list by raising. So an upload with no rows has already emptied the collection when the save reports failure.
- **Ties in the active-days sort.** pandas' multi-column sort is stable, so ties keep `groupby`'s ascending e-mail order. The model states that order as an explicit third key.

## Model

| member | source | states |
|---|---|---|
| Timestamps.FromEpochMicrosSucceeds | cursor_api.py:118-120 | converting an epoch count succeeds exactly when it lies in years 1 to 9999; outside that range `fromtimestamp` raises |
| Timestamps.EpochMicrosOfFromEpochMicros | cursor_api.py:118-120 | the date and time produced from an epoch count denote exactly that many microseconds since 1970-01-01T00:00:00Z, with every field in range |
| Timestamps.FromEpochMicrosOfEpochMicros | cursor_api.py:118-120 | every valid date and time is reached from its own epoch count, so the conversion is a bijection onto valid instants |
| Timestamps.EpochOrdinalIsUnixEpoch | cursor_api.py:118-120 | counting 0001-01-01 as day 0, day 719162 is 1970-01-01, the origin `fromtimestamp` counts from, in both directions of the conversion |
| Timestamps.OrdinalOfDateFromOrdinal | cursor_api.py:118-120 | the day number of the date computed from a day number is that number, for all days in years 1 to 9999 |
| Timestamps.DateFromOrdinalOfOrdinal | cursor_api.py:118-120 | the date computed from a valid date's day number is that date |
| Timestamps.ParseDigitsOfDigits | cursor_api.py:132 | a zero-padded field of `strftime` reads back as the number written |
| Timestamps.Format | cursor_api.py:132 | the text has the fixed 27-character shape: digits in the date, time and six-digit fraction fields, separators `-`, `T`, `:`, `.` and a closing `Z` |
| Timestamps.ParseIsoOfFormat | cursor_api.py:100 | parsing the formatted text with the same format gives back the instant that was formatted; pandas also needs the instant inside its `Timestamp` range, which `CursorApi.TransformPandasRange` covers |
| Timestamps.FormatOfParseIso | cursor_api.py:121-124 | the fixed-format parse accepts only the texts that formatting produces, and formats its result back to the same text |
| CursorApi.ConvertToIso | cursor_api.py:105-132 | a successful conversion always yields text of the fixed 27-character shape |
| CursorApi.EpochUnitChoice | cursor_api.py:115-120 | a number above 10^10 is read as epoch milliseconds, any other as epoch seconds, and the text produced denotes exactly that instant |
| CursorApi.EpochConversionSucceeds | cursor_api.py:115-120 | an epoch number converts exactly when the instant it denotes lies in years 1 to 9999 |
| CursorApi.SecondsFrom1970Convert | cursor_api.py:119-120 | every epoch-seconds value from 0 up to the millisecond threshold converts |
| CursorApi.ConvertIdempotent | cursor_api.py:121-132 | feeding a converted text back in returns the same text, whatever the clock and the fallback parsers |
| CursorApi.KeepsIffEmail | cursor_api.py:89-91 | the keep test holds exactly when the email is non-empty: a converted date is never empty, so the date test drops nothing |
| CursorApi.TransformCursorData | cursor_api.py:63-103 | the append loop and the column parse after it yield the transform's result: no records, the records of the entries with an email, the error the first bad entry raises, or the out-of-bounds error of a kept date pandas cannot hold |
| CursorApi.TransformPandasRange | cursor_api.py:97-100 | after a loop that raised nothing, the transform succeeds exactly when every entry with an email has a date inside the pandas `Timestamp` range (1677-09-21 to 2262-04-11); otherwise it raises `OutOfBoundsDatetime` |
| CursorApi.TransformEntriesContents | cursor_api.py:79-91 | a successful transform has one record per entry with an email, in input order. Each record carries that entry's email and `bool` of `isActive` (False when missing). Its request counts default to 0, and its date is the converted instant |
| CursorApi.WithEmailAppend | cursor_api.py:79-91 | keeping entries preserves their relative order: the survivors of a concatenation are those of each part, one after the other |
| CursorApi.WithEmailMembers | cursor_api.py:89-91 | an entry survives exactly when it is in the input and has an email |
| CursorApi.FailurePersists | cursor_api.py:79-87 | once an entry has raised, later entries change nothing: the error of a prefix is the error of the whole list |
| CursorApi.FailureAt | cursor_api.py:81-87 | an entry whose record dict cannot be built makes the whole transform raise |
| CursorApi.FailureHasCause | cursor_api.py:81-87 | a transform that raises has an entry whose dict fails with exactly the raised error |
| CursorApi.TransformEntriesFails | cursor_api.py:81-87 | the transform raises exactly when some entry's dict cannot be built, because of an unconvertible date or a null request count |
| CursorApi.EmptyResults | cursor_api.py:73-95 | no response, or one without `data`, gives no records; so does a `data` list none of whose entries has an email |
| CursorApi.RequestBodyInMillis | cursor_api.py:25-61 | an unset or empty API key raises before any body is built. With a key, the call returns None exactly when the log line's zone-less `fromtimestamp` of a bound raises: when the bound's local time, the local time one day earlier that it probes for a fold, or, after a fall in the zone's offset over that day, the local time shifted back by the fall, lies outside years 1 to 9999. Otherwise both bounds are whole multiples of 1000: the start is the argument, else the environment's value, else 1746057600; the end is the argument, else the clock |
| CursorApi.ModernWindowBuilds | cursor_api.py:41-49 | with a key, bounds between 0 and 10^10 seconds and a zone always within a day of UTC, a body is always built, fold probes included |
| CursorApi.ModernBoundConverts | cursor_api.py:43 | a bound between 0 and 10^10 seconds, under a zone always within a day of UTC, prints without raising: its own local time and both fold probes lie in years 1 to 9999 |
| CursorApi.FoldProbeRejectsFirstDay | cursor_api.py:43 | in UTC a start bound at 0001-01-01T00:00:00 has a printable local time, yet the call returns None, because the fold probe one day earlier falls in year 0 |
| CursorApi.RequestBoundReadsBack | cursor_api.py:47-48 | a request bound after 1970-04-26T17:46:40Z, sent in milliseconds, converts to the same date text as the seconds value it was built from |
| Database.GetManagerInfo | database.py:53-68 | an email present in `manager_data` gets that entry's manager, director and department; an absent one gets three empty strings. `Database.SaveKeepsInfoConsistent` builds on it: saved rows agree with `manager_data` |
| Database.PrepareRecords | database.py:77-86 | each record gets its manager columns from the lookup and its date as fixed-format text, in input order |
| Database.UpsertAllEffect | database.py:91-135 | existing rows keep their ids and keys. A row whose key no record has is unchanged. Every row whose key some record has holds the values of the last such record. New rows come after the old ones, with consecutive fresh ids |
| Database.UpsertAllCount | database.py:93-135 | a save never duplicates a key: a new key gains exactly one row, an existing key gains none, and other keys keep their count |
| Database.LaterRecordWins | database.py:91-135 | two records sharing a key, saved together, leave one row for the key if it was new, and every row with the key holds the later record |
| Database.UpsertAllKeepsIds | database.py:119-135 | ids stay strictly increasing down the table and below the next autoincrement id |
| Database.LatestMetadata | database.py:160-162 | the query gives None exactly when `metadata` is empty, else a row of the table whose id no other row exceeds |
| Database.LatestIsLast | database.py:160-162 | with ids increasing, the row with the largest id is the last row logged |
| Database.BackfillSpec | database.py:219-241 | the back-fill changes only the manager columns. Rows whose email is in `manager_data` take that entry's values; all others are unchanged. Afterwards every row is consistent with `manager_data`; a second run changes nothing; the table is a fixed point exactly when already consistent |
| Database.SaveKeepsInfoConsistent | database.py:77-135 | a save enriches from the same `manager_data`, so a table consistent with it stays consistent |
| Database.MetricsDb.constructor | database.py:22-49 | a new store has the given manager directory and empty `metrics_data` and `metadata` tables |
| Database.MetricsDb.SaveData | database.py:70-154 | the metrics table becomes the upsert of the enriched records in order, the manager directory is untouched, and one metadata row is appended with the next id, the upload time and the number of input records; that row becomes the current file |
| Database.MetricsDb.UpsertRecords | database.py:91-135 | the select-then-update-or-insert loop leaves the table and the id counter as the in-order upsert of the records, touching nothing else |
| Database.MetricsDb.LogUpload | database.py:137-146 | appends one metadata row with the next id and the record count; the metrics table and manager directory are unchanged; the new row is the current file |
| Database.MetricsDb.CurrentFileInfo | database.py:156-165 | None exactly when no upload is logged, else the metadata row with the largest id, which is the last one logged |
| Database.MetricsDb.LoadData | database.py:167-177 | None exactly when `metrics_data` is empty, else its rows; `Database.MetricsDb.DeleteCurrentFile` uses it to state that a wiped store loads as None |
| Database.MetricsDb.DeleteCurrentFile | database.py:200-211 | `metrics_data` and `metadata` become empty while `manager_data` and the autoincrement counters are untouched; afterwards loading and the current-file query both give None |
| Database.MetricsDb.UpdateMetricsManagerData | database.py:213-250 | the metrics table becomes its back-fill from `manager_data`; nothing else changes |
| Analysis.FilterByDateCounts | app.py:34 | the filtered rows are exactly the rows with start <= date <= end, each kept as often as it occurs in the input and no other row kept |
| Analysis.GroupKeysSpec | app.py:37-40 | the group keys are the distinct emails of the filtered rows, in ascending order |
| Analysis.UniqueUsersSpec | app.py:37-40 | one aggregate per distinct email, ascending. Its active flag is true exactly when some row of the user is active; its request count is the sum over the user's rows |
| Analysis.AnyActiveIff | app.py:38 | `any` over a user's active flags is true exactly when the user has an active row |
| Analysis.SumReqsZero | app.py:39 | with no negative counts, a user's sum is zero exactly when every row of the user has zero requests |
| Analysis.NegativeSumHasCause | app.py:39 | a negative sum has a row with a negative count behind it |
| Analysis.CohortMembers | app.py:43-45 | "never used" holds exactly the users whose sum is 0 and "used" exactly those whose sum is positive; no user is in both |
| Analysis.CohortSizes | app.py:78-80 | the two cohorts together hold at most every user, and exactly every user when no sum is negative |
| Analysis.NeverUsedTableSorted | app.py:54-55 | the never-used table holds exactly the aggregated users whose sum is 0, in ascending e-mail order |
| Analysis.ActiveDatesNonEmpty | app.py:60 | a user who has an active row has at least one active date |
| Analysis.ActiveKeys | app.py:60-61 | the groups of the active rows are exactly the users with an active row, in ascending e-mail order |
| Analysis.UsedEmails | app.py:43-45 | an email is a key of the used cohort exactly when the user has rows and a positive request sum |
| Analysis.KeepUsedSpec | app.py:71 | the `isin` filter keeps exactly the active-days rows whose email is in the given set, and keeps ascending e-mail order |
| Analysis.UsedActiveDaysMembers | app.py:60-71 | a row of the filtered active-days table exists exactly for each used user with an active day, carrying the number of distinct active dates and the user's summed requests |
| Analysis.UsedActiveDaysSize | app.py:60-71 | the active-days table is never longer than the used cohort |
| Analysis.SortByRankSpec | app.py:72 | the sort yields a permutation of its input in which Active Days never increase and, among equal days, requests never increase (ties by ascending e-mail) |
| Analysis.RankSortedStrict | app.py:72 | with distinct emails, the sorted table is strictly ordered by the ranking |
| Analysis.ActiveDaysTableSpec | app.py:60-72 | the ranked table holds exactly the used users with an active day, each at least one day, strictly ranked, and no longer than the used cohort |
| Analysis.CountCheck | app.py:78-92 | the count check fires exactly when some user's summed requests are negative, so it never fires on data with no negative count |
| Analysis.UsedActiveDaysShorter | app.py:60-71 | a used user without an active row leaves the active-days table shorter than the used cohort |
| Analysis.UsedButNeverActive | app.py:60-71 | for every table and range: a user with rows and a positive request sum in the range but no active row there is in the used cohort, has no row in the active-days table, and makes that table strictly shorter than the used count |
| Analysis.NegativeCountTripsCheck | app.py:91-92 | an example: a range holding a single row with a negative count fires the count check (in general the check fires exactly when a user's sum is negative, `Analysis.CountCheck`) |
| AdminPanel.AuthenticateUser | admin_app.py:36-39 | true exactly when both variables are set and equal the entered username and password; `AdminPanel.UnsetVariableBlocksLogin` and `AdminPanel.AuthenticatedAfterIff` build on it |
| AdminPanel.UnsetVariableBlocksLogin | admin_app.py:38-39 | with either variable unset, no credentials are accepted |
| AdminPanel.AuthenticatedAfterIff | admin_app.py:67-92 | after any run of login attempts and logout clicks, the session is logged in exactly when some attempt with the configured credentials has not been followed by a logout |
| AdminPanel.NeverAuthenticatedWhenUnset | admin_app.py:67-78 | with either variable unset, a session never gets past the login form |
| AdminPanel.StoredDocsReadBack | admin_app.py:52-53 | every stored date text parses back, under the model's fixed-format parser, as midnight of the uploaded day, and the other cells are those uploaded |
| AdminPanel.SaveDataToMongo | admin_app.py:41-62 | without a connection it reports failure and changes nothing. Otherwise the collection ends up holding exactly the uploaded rows with their dates formatted, and it reports success exactly when there was at least one row |
| AdminPanel.AdminSession.constructor | admin_app.py:15-16 | a new session starts logged out |
| AdminPanel.AdminSession.Login | admin_app.py:72-78 | after the Login button the session is logged in exactly when it was already, or the entered credentials match |
| AdminPanel.AdminSession.Logout | admin_app.py:90-92 | after the Logout button the session is logged out |
| AdminPanel.AdminSession.Upload | admin_app.py:80-88 | an upload saves only while logged in. Then the collection holds exactly the uploaded rows, and success is reported exactly when there is a connection and at least one row. While logged out nothing changes |

## Left out

- **Connections and plumbing.** SQLite, MongoDB and HTTP connections, `requests.post`, `dotenv` and TLS settings are foreign I/O. The tables, the collection and the request body are values, and the response arrives as a decoded value.
- **Exception paths of I/O.** The `try`/`except` branches that return False or `None`, or print, when a database or HTTP call raises are not modelled: with I/O left out, every statement succeeds. This covers `save_data_to_db`'s False (database.py:150-154) and `get_manager_info`'s error default (database.py:66-68). The admin save's exception path is modelled only for the empty insert.
- **Wall clock.** It is a parameter: `now` for the date conversion, `nowSeconds` for the request's end, and `uploadDate` for the metadata row.
- **Free-form date parsing.** `fromisoformat` accepts other forms, and `pd.to_datetime` parses free-form text (cursor_api.py:124-127). These are the `fallback` parameter; only the fixed format is parsed by the model itself.
- **Float inputs.**
  - A float epoch and the float division of the millisecond branch (cursor_api.py:117-118) are left out; epoch numbers are integers, and milliseconds are converted exactly.
  - A JSON boolean is a Python `int` and enters as the epoch number 0 or 1.
- **Other JSON member types.** Email, flag and count members of any type other than those modelled are left out, and so are `int()` of floats or strings.
- `Timestamps.Format`: years 1 to 999 are printed with four zero-padded digits, while the C library's `%Y` may print fewer. The model covers the padded form only.
- `CursorApi.RequestBodyInMillis`: the start epoch from the environment is taken as an integer; a non-numeric value, on which `int()` raises (cursor_api.py:30), is not modelled. The local zone's offset is a parameter. The fold probes of a zone-less `fromtimestamp` are modelled as CPython makes them on POSIX systems; the Windows build, which skips the probe for timestamps under one day, is not modelled. Errors of the C library's `localtime` itself, such as a `time_t` overflow, are not modelled either.
- **pandas version.** `PandasMinMicros` and `PandasMaxMicros` are the range of a nanosecond `Timestamp`, which `pd.to_datetime` produces for parsed strings in pandas 1.x and 2.x; pandas 3, which infers a coarser resolution and a wider range, is not modelled.
- `CursorApi.TransformCursorData`: one clock reading `now` serves every entry without a usable date, while the source reads the clock once per such entry (cursor_api.py:130). In the model, two dateless entries therefore always share a date, and so an upsert key when they share an email; in the source they differ by the time between the calls.
- **`fetch_and_save_cursor_data`** (cursor_api.py:134-170) is not modelled. It never returns True. It returns False when the fetch gives nothing (cursor_api.py:149-151) or the transformed frame is empty (cursor_api.py:155-157); any exception before or at the save lands in the `except` at cursor_api.py:168-170, which returns False. Such exceptions include the `ValueError` for an unset API key (cursor_api.py:25-26), a transform error (cursor_api.py:81-100), a failing `init_db()` run by the import at cursor_api.py:143, and the call at cursor_api.py:160 with keyword arguments that `save_data_to_db` does not accept.
- **`init_db`** (database.py:11-51) is not modelled. It runs `ALTER TABLE` before `CREATE TABLE`, so on a fresh database it fails. `MetricsDb.constructor` stands for a store whose tables exist.
- **Integer width.** Counts are unbounded integers. In the source they are 64-bit: the pandas `int64` sum of the aggregation (app.py:39) wraps on overflow, and SQLite rejects a value beyond its 64-bit INTEGER in the upsert (database.py:100-135), so the save returns False. Neither is modelled.
- **`size_mb`** in the metadata row (database.py:138, 144) is a float approximation and is left out.
- **NULL manager columns** and pandas NaN normalisation are left out. Manager fields are strings.
- **Loop structure.**
  - `Database.PrepareRecords` fuses the enrichment loop and the date loop of a save into one pass. Each record is touched only by its own iteration, so the result is the same.
  - The record dicts are values, not mutated in place.
  - `load_data_from_db`'s conversion back to a DataFrame, and its column drops, are left out.
- **Streamlit.** Rendering, widgets, `st.rerun`, metrics display and the min/max defaults of the date widgets are left out. The filter bounds are parameters.
- **Dashboard input.**
  - The CSV reading and the column-wise date parse of the dashboard and the admin upload (app.py:14-19, admin_app.py:84-86) are left out. Rows arrive with their calendar day.
  - No file of the code reads the `metrics` collection back; `AdminPanel.StoredDocsReadBack` states only that the stored date text parses back under the model's fixed-format parser.
- **Never-used sort.** The sort by e-mail of the never-used table (app.py:55) is the identity in the model. `Analysis.NeverUsedTableSorted` proves its input is already in ascending e-mail order.
- **MongoDB connection caching** (admin_app.py:19-34) is left out. A missing connection is a `null` collection.
- **`load_managers.py`** is not part of this model. It is a one-off import script, and the back-fill it calls is modelled.

# Garden sensor backend: a Dafny model of its data core

This project models the data core of a small monitoring backend. The backend stores soil-moisture
readings (SENSOR_DATA), weather-station readings (WEATHER_DATA) and audio recordings
(AUDIO_RECORDING). The model covers:

- **The CSV importer** (`Backend/data_loader.py`):
  - the header's column count picks the sensor or the weather table;
  - every later line is stripped and checked against the header's width;
  - each line is mapped onto that table's keys and converted: `int(float(...))` for the
    timestamp, `float(...)` for the rest;
  - the record is offered to the insert, and successes and failures are counted.
- **The display helpers** (`Backend/utils.py`):
  - `format_timestamp`: an epoch second shown as `YYYY-MM-DD HH:MM:SS`, date and time;
  - `format_for_frontend`: dates, date-times and durations rendered to text in place;
  - `is_allowed_file`: the extension check.
- **The two filename-driven metadata readers**, with their batch scanners:
  - `YYYYMMDD_HHMMSS` in `Backend/utils.py`;
  - `YYYY_MM_DD_HH_MM_SS` in `Backend/audiodata.py`.
- **The services** (`Backend/services.py`):
  - the newest sensor and weather readings;
  - the weather/sensor union joined on the timestamp;
  - the readings inside an audio recording's time window;
  - the upload handler:
    - it saves the file under a temporary name;
    - it reads the start time from the name;
    - it updates the row with the same start (keeping its id), or inserts a new one;
    - it deletes the superseded file and renames the temporary file to its final name;
    - it cleans up on failure.

Everything is modelled on values:

- the disk is a map from paths to what the tag reader makes of each file, plus a set of
  directories;
- the tables are sequences of records;
- a result row is a `map<string, Cell>`.

The parts of the source that change state step by step are imperative Dafny, each method proved
equal to a specification function:

- the dict updates of `format_for_frontend` (`TimeFormat.Row.Format`, `TimeFormat.FormatEach`);
- the `pop('sort_ts')` loop (`Queries.PopAll`);
- the importer loop (`CsvImport.ProcessCsvFile`);
- the upload handler (`AudioUpload.AudioLibrary.HandleUpload`).

Everything is in UTC. The database connection, the exceptions a query raises, the insert's answer
and the directory listing are parameters.

Modules:

| Module | Contents |
|---|---|
| `Wrappers` | Python's `None` as `Option` |
| `Text` | digits, padding, `str.strip`, `str.lower`, `rfind`, splitting on a delimiter |
| `Calendar` | proleptic Gregorian calendar, epoch seconds to date and time and back |
| `FloatText` | Python's `float(str)` and `int(float)` on decimal text |
| `TimeFormat` | the display helpers of `utils.py` |
| `AudioMetadata` | both metadata readers and batch scanners |
| `CsvImport` | `process_csv_file` |
| `Selection` | the SQL shapes the queries use: `WHERE`, `ORDER BY ... LIMIT`, `LEFT`/`RIGHT JOIN`, `UNION`, `JOIN ... ON` |
| `Queries` | the read services |
| `AudioUpload` | the upload handler |

## Model

| member | source | states |
|---|---|---|
| CsvImport.SplitRecord | Backend/data_loader.py:54 | an empty line yields no fields, any other line at least one |
| CsvImport.CleanRow | Backend/data_loader.py:56 | every field is replaced by its stripped text, and the count is kept |
| CsvImport.ZipPrefixValue | Backend/data_loader.py:64 | `dict(zip(keys, values))` maps a key that is not repeated later to the value beside it |
| CsvImport.ZipPrefixDomain | Backend/data_loader.py:64 | only the first `min(len(keys), len(values))` keys are in the dict |
| CsvImport.ConvertFields | Backend/data_loader.py:67-83 | the conversion loop returns exactly `ConvertRecord`: None on a missing timestamp, a timestamp that is not finite, or another value that is not a float; otherwise the timestamp as `int(float(...))` and every other value as `float(...)` |
| CsvImport.ImportRow | Backend/data_loader.py:54-83 | one line counts as a success exactly when it has the header's width, converts, and the insert accepts it |
| CsvImport.ProcessCsvFile | Backend/data_loader.py:11-93 | "File not found", an open/decode error or "Empty file" as the error result; otherwise `completed`, with the success count equal to the lines the insert accepted and the failure count equal to all other data lines |
| CsvImport.AcceptedStep | Backend/data_loader.py:76-83 | one more data line adds one success exactly when the insert accepted it |
| CsvImport.WidthMismatchNeverOffered | Backend/data_loader.py:59-61 | a line whose field count differs from the header's is never offered to the insert |
| CsvImport.OfferedRecordShape | Backend/data_loader.py:44-73 | an offered record has exactly the chosen table's first keys (weather for more than two columns, sensor otherwise), an integer timestamp and float values elsewhere |
| CsvImport.NarrowHeaderConvertsNothing | Backend/data_loader.py:44-68 | with a header of at most one column no line converts, because `moisture` alone has no `timestamp` |
| CsvImport.NarrowHeaderAcceptsNothing | Backend/data_loader.py:44-68 | a file whose header has at most one column imports nothing |
| FloatText.IntOfFloat | Backend/data_loader.py:68 | `int(x)` fails exactly for an infinity or NaN |
| FloatText.TruncateBounds | Backend/data_loader.py:68 | `int(x)` keeps the sign and drops less than one unit (truncation toward zero) |
| FloatText.IntOfFloatDigits | Backend/data_loader.py:68 | `int(float(s))` of a signed digit string is the integer it spells |
| FloatText.IntOfFloatPoint | Backend/data_loader.py:68 | `int(float("w.f"))` drops the fraction and gives the integer `w` spells |
| FloatText.ParseFloatPoint | Backend/data_loader.py:68-73 | `float("w.f")` reads the digits of `w` and `f` with the fraction's length as negative exponent |
| Calendar.CivilFromDays | Backend/utils.py:11 | the date of a day number is valid and maps back to that day number |
| Calendar.CivilFromDaysFromCivil | Backend/utils.py:11 | day number and calendar date are inverse to each other |
| Calendar.DateTimeOf | Backend/utils.py:11 | `datetime.fromtimestamp` (UTC) gives a valid date and time in range whose epoch is the given second |
| Calendar.DateTimeOfEpochOf | Backend/utils.py:60-61 | a valid date and time converted to epoch seconds and back is unchanged |
| Calendar.EpochOfInjective | Backend/utils.py:60-61 | different valid date-times are different epoch seconds |
| TimeFormat.DateTimeTextRoundTrip | Backend/utils.py:13 | the `%Y-%m-%d %H:%M:%S` text reads back as the date and time it shows |
| TimeFormat.DateTextRoundTrip | Backend/utils.py:14 | the `%Y-%m-%d` text reads back as the date |
| TimeFormat.FormatTimestamp | Backend/utils.py:8-16 | None exactly for a non-number; otherwise the timestamp text is the date text, a space and the time text (10 and 8 characters) |
| TimeFormat.FormatTimestampRoundTrip | Backend/utils.py:8-16 | the formatted texts read back as the UTC date and time of the number, and that is the very epoch second shown |
| TimeFormat.FormatTimestampOfDateTime | Backend/utils.py:8-16 | every valid date-time's epoch is formatted, and shown as that date-time's own text |
| TimeFormat.FormatTimestampInjective | Backend/utils.py:8-16 | two epoch seconds with the same formatted timestamp are the same second |
| TimeFormat.Pad02RoundTrip | Backend/utils.py:29 | every `f"{n:02}"` field, negative ones included, reads back as `n` |
| TimeFormat.Pad02Clock | Backend/utils.py:29 | for 0..99 `f"{n:02}"` is the two-digit clock field |
| TimeFormat.DurationTextRoundTrip | Backend/utils.py:27-29 | a duration's `H:MM:SS` text reads back as hours, minutes and seconds that add up to it, with minutes and seconds below 60 and hours as Python's floor division |
| TimeFormat.DurationTextOfDay | Backend/utils.py:27-29 | for a time of day the duration text equals the clock text |
| TimeFormat.FormatCell | Backend/utils.py:25-29 | a date, date-time or duration becomes text; every other value is unchanged |
| TimeFormat.FormatCellReadsBack | Backend/utils.py:25-29 | a rendered date-time or date reads back as the value, and a rendered duration as fields adding up to it |
| TimeFormat.FormatRow | Backend/utils.py:24-29 | same keys, each value rendered |
| TimeFormat.FormatRowIdempotent | Backend/utils.py:24-29 | rendering a rendered row changes nothing |
| TimeFormat.Row.Format | Backend/utils.py:24-29 | the in-place loop leaves the row equal to the rendered original |
| TimeFormat.Row.Pop | Backend/services.py:131 | `dict.pop(key, None)` removes the key when present and changes nothing else |
| TimeFormat.FormatEach | Backend/utils.py:23-29 | every listed row ends up rendered, a row listed twice included |
| TimeFormat.FormatForFrontend | Backend/utils.py:18-30 | `None`, `[]` and `{}` give a fresh `[]`; a dict is wrapped in a list; the rows returned are rendered in place, and no other row changes |
| TimeFormat.IsAllowedFile | Backend/utils.py:36-38 | true exactly when the name has a dot and the text after its last dot, lower-cased, is mp3, wav, ogg or flac |
| Text.Strip | Backend/data_loader.py:56 | `str.strip()`: the slice left after dropping leading and trailing white space, starting and ending with a non-space |
| Text.SplitOnJoinWith | Backend/data_loader.py:27-28 | splitting on a delimiter undoes joining pieces that do not contain it |
| Text.SameIgnoringCaseLower | Backend/utils.py:38 | comparing character by character lower-cased is `s.lower() == word` |
| AudioMetadata.BasenameMeaning | Backend/utils.py:48 | `os.path.basename` is the whole path without '/', and otherwise the '/'-free tail that follows a '/' |
| AudioMetadata.StripExtensionMeaning | Backend/utils.py:50 | `os.path.splitext(name)[0]` is the name exactly when no dot follows its leading dots, and otherwise the name without its last dot and what follows, with a non-dot before that dot |
| AudioMetadata.FindMatch | Backend/utils.py:51-53 | `re.search` finds the leftmost position where the pattern matches, or reports that none does |
| AudioMetadata.StartFromNameMeaning | Backend/utils.py:51-61 | no start exactly when nothing matches; a failure when the leftmost match is no valid date and time; otherwise the epoch of the leftmost match's fields |
| AudioMetadata.ExtractAudioMetadata | Backend/utils.py:40-75 | None for a missing or unreadable file; otherwise the basename, the tag's duration and the path |
| AudioMetadata.ExtractAudioMetadataStart | Backend/audiodata.py:24-52 | for a readable file: None exactly for an invalid matched date; no start exactly when nothing matches; the end is start plus duration exactly for a start other than 0 |
| AudioMetadata.EndsWithIgnoringCaseLower | Backend/utils.py:92 | the suffix test agrees with `filename.lower().endswith(suffix)` |
| AudioMetadata.PresentMembers | Backend/utils.py:94-96 | a metadata value is kept exactly when some read produced it |
| AudioMetadata.CollectedMembers | Backend/audiodata.py:76-81 | the batch list holds exactly what some listed name's read produced, at most one value per name |
| AudioMetadata.CollectListed | Backend/audiodata.py:76-82 | the listing loop appends, in listing order, every value found |
| AudioMetadata.ExtractBatchMetadata | Backend/utils.py:78-97 | `[]` when the directory is missing (the configured one when None is given); otherwise the metadata of every readable `.mp3`/`.wav` listed |
| Selection.SortByCorrect | Backend/services.py:159 | `ORDER BY` returns a sorted permutation of its input |
| Selection.FilterCorrect | Backend/services.py:29 | `WHERE` keeps exactly the rows that pass, each as often as in the table |
| Selection.SelectNewest | Backend/services.py:29-35 | `WHERE .. ORDER BY .. DESC LIMIT n`: `min(n, passing)` rows, all passing table rows, newest first, none newer than the last one left out |
| Selection.SelectFromAll | Backend/services.py:115-122 | selecting from a duplicate-free union keeps it duplicate-free, sorted, limited, and without leaving out a newer row |
| Selection.DistinctCorrect | Backend/services.py:101 | `UNION` keeps every row once and only rows of its inputs |
| Selection.LeftRowsMembers | Backend/services.py:99 | a left row joins every partner, or joins NULL when it has none |
| Selection.RightRowsMembers | Backend/services.py:111 | a right row joins every partner, or joins NULL when it has none |
| Selection.UnionIsFullOuterJoin | Backend/services.py:90-112 | `LEFT JOIN UNION RIGHT JOIN` holds, once each, exactly the rows of the full outer join |
| Selection.GatherMembers | Backend/services.py:154-158 | `JOIN .. ON`: a right row is returned exactly when some left row pairs with it |
| Selection.GatherOne | Backend/services.py:157-158 | when only one left row can pair, the join is that row's filter |
| Queries.LatestSensorData | Backend/services.py:15-42 | a failed connection or query (a negative `LIMIT` included, with the driver's text) gives the one-row error list with the source's message |
| Queries.LatestWeatherData | Backend/services.py:45-78 | a failed connection or query (a negative `LIMIT` included, with the driver's text) gives the one-row error list with the source's message |
| Queries.LatestSensorsMeaning | Backend/services.py:22-35 | live readings of the table only, `min(limit, live)` of them, newest first, no live reading newer than the last one left out, none duplicated beyond the table |
| Queries.LatestWeatherMeaning | Backend/services.py:55-71 | as for sensors, over WEATHER_DATA |
| Queries.LatestSensorDataRows | Backend/services.py:37-39 | a successful query returns, row for row, the rendered selected readings |
| Queries.LatestWeatherDataRows | Backend/services.py:73-75 | a successful query returns, row for row, the rendered selected readings |
| Queries.SensorRowShown | Backend/services.py:25-39 | a rendered sensor row's date and time are the `format_timestamp` text of the reading's timestamp |
| Queries.WeatherRowShown | Backend/services.py:58-75 | a rendered weather row's date and time are the `format_timestamp` text of the reading's timestamp |
| Queries.UnionIsOuterJoin | Backend/services.py:90-112 | the union of weather and sensor readings is, once each, the full outer join on the timestamp |
| Queries.CombinedRowsMeaning | Backend/services.py:90-122 | the combined rows are distinct rows of the outer join, `min(limit, union)` of them, newest `sort_ts` first, none newer left out |
| Queries.CombinedRowsNewest | Backend/services.py:115-122 | no row of the outer join newer than the oldest combined row is left out by `ORDER BY sort_ts DESC LIMIT` |
| Queries.Fetch | Backend/services.py:126 | `fetchall` yields one fresh dict per selected row, with its columns |
| Queries.PopAll | Backend/services.py:130-131 | every row loses its `sort_ts` key and nothing else |
| Queries.GetCombinedData | Backend/services.py:81-136 | the error rows for no connection or a failed query; otherwise the selected union rows, rendered and without `sort_ts` |
| Queries.SensorsDuringMeaning | Backend/services.py:210-215 | the window query returns exactly the readings whose timestamp lies within the bounds, each as often as in the table, deleted ones too, oldest first; nothing for a NULL bound |
| Queries.WeatherDuringMeaning | Backend/services.py:218-223 | the same for WEATHER_DATA |
| Queries.FindById | Backend/services.py:203-204 | `fetchone` returns the first recording with the id, or reports that none has it |
| Queries.AudioEnvironmentalData | Backend/services.py:193-228 | "DB connection failed." exactly without a connection; "Audio recroding not found" exactly for an unknown id; otherwise, row for row, the `SELECT *` rows of the sensor and weather readings inside the recording's start and end, rendered by `format_for_frontend` |
| Queries.SensorDataForAudio | Backend/services.py:142-165 | `[]` on any failure; otherwise, row for row, the `timestamp`, `date`, `time` and `moisture` columns of the joined readings |
| Queries.WeatherDataForAudio | Backend/services.py:168-190 | `[]` on any failure; otherwise, row for row, the `w.*` columns of the joined readings |
| Queries.SensorsForAudioMeaning | Backend/services.py:154-159 | a reading is returned exactly when a recording with the id has a window holding its timestamp; oldest first |
| Queries.WeatherForAudioMeaning | Backend/services.py:179-184 | a reading is returned exactly when a recording with the id has a window holding its timestamp; oldest first |
| Queries.SensorsForAudioIsWindow | Backend/services.py:154-159 | with distinct ids the join returns the same readings in the same order as the environmental window query, and nothing for an unknown id |
| Queries.WeatherForAudioIsWindow | Backend/services.py:179-184 | with distinct ids the join returns the same readings in the same order as the environmental window query, and nothing for an unknown id |
| Queries.EnvironmentalSensorsMatch | Backend/services.py:210-226 | for a known recording the environmental reply's sensor rows and the audio join's rows come, row for row, from the same readings, and every joined column appears in the reply's row, rendered |
| Queries.EnvironmentalWeatherMatch | Backend/services.py:218-227 | for a known recording the environmental reply's weather rows are, row for row, the audio join's rows rendered by `format_for_frontend` |
| Queries.SensorAudioColumnsInside | Backend/services.py:155 | the columns `get_sensor_data_for_audio` selects are columns of the SENSOR_DATA row, with the same values |
| Queries.SensorColumnsShown | Backend/services.py:210-215 | a rendered `SELECT *` sensor row has exactly the six SENSOR_DATA columns, the timestamp as `YYYY-MM-DD HH:MM:SS` text |
| Queries.WeatherColumnsShown | Backend/services.py:218-223 | a rendered `SELECT *` weather row has exactly the eight measure columns and the five others, the timestamp as `YYYY-MM-DD HH:MM:SS` text |
| AudioUpload.FindByStart | Backend/services.py:260 | `get_audio_entry_by_time` finds the first row with the start, or reports that none has it |
| AudioUpload.SameStartText | Backend/services.py:248-260 | looking up by the start's formatted text is looking up by the start second |
| AudioUpload.TempPathIsNotFinal | Backend/services.py:235-236 | the temporary path is never the final path |
| AudioUpload.AudioLibrary.Fail | Backend/services.py:303-307 | the failure branch removes the temporary file, changes nothing else, and returns the failure |
| AudioUpload.AudioLibrary.Finish | Backend/services.py:295-301 | the rename step does what `Publish` says |
| AudioUpload.AudioLibrary.Record | Backend/services.py:259-289 | the update-or-insert step does what `Store` says |
| AudioUpload.AudioLibrary.HandleUpload | Backend/services.py:230-307 | the handler, step by step, leaves the library and answer that `Upload` gives |
| AudioUpload.PublishMeaning | Backend/services.py:295-301 | the rename succeeds exactly when the final path is no directory and the temporary file exists; then the final path holds the upload, the temporary file is gone, and every other file is unchanged |
| AudioUpload.SavedMeaning | Backend/services.py:231-240 | the upload is stored under the temporary name and the audio directory exists |
| AudioUpload.UploadStartIsShown | Backend/services.py:243-249 | a start read from an upload's name is always formattable, so `format_timestamp` never fails there |
| AudioUpload.UploadWithoutStart | Backend/services.py:243-307 | without a readable date the upload is refused, the temporary file removed, nothing else changed |
| AudioUpload.UploadDatabaseError | Backend/services.py:279-307 | a failed database write leaves the table unchanged, adds no file and removes the temporary file |
| AudioUpload.UploadStores | Backend/services.py:243-260 | with a readable start the upload goes on to the database step |
| AudioUpload.UploadSucceedsWhen | Backend/services.py:264-301 | a datable upload is stored exactly when the write succeeds, the final path is no directory, and the superseded file is not the temporary file |
| AudioUpload.UploadSucceeded | Backend/services.py:259-301 | on success: the file is under its final name, the temp file is gone, the superseded file is deleted and all other files are unchanged; the same-start row is updated keeping its id, or a row with the next id is appended |
| AudioUpload.UploadTable | Backend/services.py:259-289 | the table is unchanged, has the superseded row replaced under its own id, or has one new row with the next id |
| AudioUpload.UploadKeepsIds | Backend/services.py:279-289 | uploads keep row ids distinct and below the next id |
| AudioUpload.UploadKeepsStartsUnique | Backend/services.py:259-289 | uploads keep at most one row per start; after a stored upload a row has its start |

## Left out

- The SQL text and `timestamp_filter`:
  - `timestamp_filter` is not part of this model;
  - the three read queries are modelled without their date and time bounds;
  - the window and join queries compare `DATETIME` values as UTC epoch seconds.
- Sort order and the engine:
  - rows with equal timestamps come back in table order (a stable sort), where MySQL leaves that order open;
  - a negative `LIMIT` makes the driver raise; the text of that exception is an input (`rejected`), not derived;
  - no other statement error is derived;
  - the driver's other exceptions and the connection are parameters.
- Tables and columns:
  - the tables hold only the columns the queries read or `SELECT *` returns;
  - the `date` and `time` columns of SENSOR_DATA and WEATHER_DATA are stored values, not derived from the timestamp.
- `db.insert_sensor_data`, `db.insert_weather_data`, `get_audio_entry_by_time`, `update_audio_data` and `insert_audio_data` act on the in-memory tables:
  - the insert's answer and a database write's failure message are inputs;
  - an update keeps the row's id, and an insert takes the next id (`AUTO_INCREMENT`).
- Time zone: `datetime.fromtimestamp` and `datetime.timestamp()` use the local zone in the source, and UTC here.
- `format_timestamp` on a float rounds to whole seconds downward. Microseconds are not modelled, and neither is a timedelta's sub-second part.
- TimeFormat.FormatTimestamp: a float is a finite real, so the `ValueError` that `datetime.fromtimestamp` raises for NaN or infinity is not modelled.
- TimeFormat.DateText: the year is always padded to four digits; platforms whose `strftime('%Y')` does not pad years below 1000 are not modelled.
- CsvImport.RowOutcomeOf: the insert's answer depends only on the kind and the record, so a database that rejects a repeated record or fails midway through a file is not modelled.
- Floats:
  - `float(...)` keeps the exact decimal value;
  - binary rounding, overflow to infinity for huge literals, underscores in numerals and the double-precision limits of `int(float(...))` are not modelled.
- `csv.Sniffer`:
  - the delimiter is a parameter;
  - quoting, escaped delimiters and multi-line fields are not modelled;
  - an open or decode error is the `Unreadable` case with its message.
- Text:
  - `str.strip` removes every character Python's `str.isspace` accepts;
  - `str.lower` changes only the ASCII letters;
  - digits are ASCII only: the Unicode decimal digits that `\d`, `int()` and `float()` also accept are not modelled.
- Files and paths:
  - `secure_filename` is not modelled: the filename is taken as already sanitised;
  - `os.path.abspath` is the identity: paths are compared as given;
  - `file.save`, `os.makedirs` and `os.listdir` failing are not modelled;
  - the listing order is an input.
- TinyTag: a file's duration is an input in whole seconds, or unreadable, which makes the reader return None.
- AudioUpload.AudioLibrary.Record: the warning branch for an old file that cannot be removed is modelled only for a path that is a directory, which is not removed.
- Queries.AudioEnvironmentalData: the source does not catch query exceptions here, so the model takes only a connection flag and leaves raised exceptions out.
- Out of scope:
  - the Flask routes, `app.py`, `config.py`, the frontend and the mock data generators;
  - the log output of `print`.

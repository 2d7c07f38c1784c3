/**
 * The read queries of Backend/services.py over in-memory copies of the SENSOR_DATA,
 * WEATHER_DATA and AUDIO_RECORDING tables: the latest readings, the union of weather and
 * sensor readings joined on their timestamp, and the readings inside an audio recording's
 * time window. A query's `WHERE`/`ORDER BY`/`LIMIT` is a Selection; the rows come back as
 * dicts (`map<string, Cell>`) keyed by column name.
 */
module Queries {
  import opened Wrappers
  import opened Calendar
  import opened TimeFormat
  import opened Selection
  import opened AudioUpload

  /** A SENSOR_DATA row: the stored `date` and `time` columns are kept as the driver gives them. */
  datatype SensorRecord = SensorRecord(id: int, at: PyDateTime, date: Cell, time: Cell,
                                       moisture: Cell, deleted: bool)

  /** The eight measurement columns of WEATHER_DATA, in table order. */
  datatype Measures = Measures(inTemperature: Cell, outTemperature: Cell, inHumidity: Cell,
                               outHumidity: Cell, windSpeed: Cell, windDirection: Cell,
                               dailyRain: Cell, rainRate: Cell)

  datatype WeatherRecord = WeatherRecord(id: int, at: PyDateTime, date: Cell, time: Cell,
                                         measures: Measures, deleted: bool)

  /**
   * What `db_session` and `cursor.execute` do beyond the tables: no connection, an exception
   * the driver raises whatever the statement, and the text of the exception it raises for a
   * statement the server rejects as malformed (such as one with a negative `LIMIT`).
   */
  datatype Connection = Connection(connected: bool, raised: Option<string>, rejected: string)

  type Dict = map<string, Cell>

  function ErrorDict(message: string): Dict
  {
    map["error" := TextCell(message)]
  }

  /** The text of the exception `cursor.execute` raises for a query with this `LIMIT`, when it raises one. */
  function Raised(db: Connection, limit: int): Option<string>
  {
    if db.raised.Some? then db.raised else if limit < 0 then Some(db.rejected) else None
  }

  /** `format_for_frontend` applied to a fresh result list. */
  function FormatRows(rows: seq<Dict>): (r: seq<Dict>)
    ensures |r| == |rows|
    ensures forall i :: 0 <= i < |rows| ==> r[i] == FormatRow(rows[i])
  {
    seq(|rows|, i requires 0 <= i < |rows| => FormatRow(rows[i]))
  }

  function Flag(b: bool): Cell
  {
    IntegerCell(if b then 1 else 0)
  }

  /** The seconds since midnight of a time of day, as MySQL's TIME() hands it over (a timedelta). */
  function SecondOfDay(t: PyDateTime): int
  {
    t.hour * 3600 + t.minute * 60 + t.second
  }

  // ---------------------------------------------------------------------------------------
  // get_latest_sensor_data / get_latest_weather_data
  // ---------------------------------------------------------------------------------------

  function SensorIsLive(r: SensorRecord): bool
  {
    !r.deleted
  }

  function WeatherIsLive(r: WeatherRecord): bool
  {
    !r.deleted
  }

  /** The epoch second of a reading's `timestamp` column, the key of `ORDER BY timestamp`. */
  function SensorInstant(r: SensorRecord): int
  {
    EpochOf(r.at)
  }

  function WeatherInstant(r: WeatherRecord): int
  {
    EpochOf(r.at)
  }

  /** The columns `get_latest_sensor_data` selects for a reading. */
  function SensorDisplay(r: SensorRecord): Dict
  {
    map["sensor_id" := IntegerCell(r.id), "date" := DateCell(r.at.date),
        "time" := DeltaCell(SecondOfDay(r.at)), "Moisture" := r.moisture]
  }

  function MeasureColumns(m: Measures): Dict
  {
    map["in_temperature" := m.inTemperature, "out_temperature" := m.outTemperature,
        "in_humidity" := m.inHumidity, "out_humidity" := m.outHumidity,
        "wind_speed" := m.windSpeed, "wind_direction" := m.windDirection,
        "daily_rain" := m.dailyRain, "rain_rate" := m.rainRate]
  }

  /** The columns `get_latest_weather_data` selects for a reading. */
  function WeatherDisplay(r: WeatherRecord): Dict
  {
    MeasureColumns(r.measures) + map["weather_id" := IntegerCell(r.id), "date" := DateCell(r.at.date),
                                     "time" := DeltaCell(SecondOfDay(r.at))]
  }

  function LatestSensors(table: seq<SensorRecord>, limit: nat): seq<SensorRecord>
  {
    Select(table, SensorIsLive, Descending(SensorInstant), limit)
  }

  function LatestWeather(table: seq<WeatherRecord>, limit: nat): seq<WeatherRecord>
  {
    Select(table, WeatherIsLive, Descending(WeatherInstant), limit)
  }

  /**
   * `get_latest_sensor_data` without time bounds: the live readings, newest first, at most
   * `limit` of them, rendered; a failed connection or query gives a one-row error list.
   */
  function LatestSensorData(table: seq<SensorRecord>, limit: int, db: Connection): (rows: seq<Dict>)
    ensures !db.connected ==> rows == [ErrorDict("Database connection failed at get_latest_sensor_data.")]
    ensures db.connected && Raised(db, limit).Some? ==>
              rows == [ErrorDict("Failed to load sensor data: " + Raised(db, limit).value)]
  {
    if !db.connected then [ErrorDict("Database connection failed at get_latest_sensor_data.")]
    else match Raised(db, limit)
      case Some(e) => [ErrorDict("Failed to load sensor data: " + e)]
      case None =>
        var found := LatestSensors(table, limit);
        FormatRows(seq(|found|, i requires 0 <= i < |found| => SensorDisplay(found[i])))
  }

  /** `get_latest_weather_data`, the same query over WEATHER_DATA. */
  function LatestWeatherData(table: seq<WeatherRecord>, limit: int, db: Connection): (rows: seq<Dict>)
    ensures !db.connected ==> rows == [ErrorDict("Database connection failed at get_latest_weather_data.")]
    ensures db.connected && Raised(db, limit).Some? ==>
              rows == [ErrorDict("Failed to load weather data: " + Raised(db, limit).value)]
  {
    if !db.connected then [ErrorDict("Database connection failed at get_latest_weather_data.")]
    else match Raised(db, limit)
      case Some(e) => [ErrorDict("Failed to load weather data: " + e)]
      case None =>
        var found := LatestWeather(table, limit);
        FormatRows(seq(|found|, i requires 0 <= i < |found| => WeatherDisplay(found[i])))
  }

  /**
   * The latest sensor readings are live readings of the table, at most `limit` of them
   * (fewer only when fewer are live), newest first; no live reading newer than the oldest
   * one returned is left out, and each appears as often as in the table at most.
   */
  lemma LatestSensorsMeaning(table: seq<SensorRecord>, limit: nat)
    ensures var r := LatestSensors(table, limit);
            && |r| == Min(limit, |Filter(table, SensorIsLive)|)
            && (forall x :: x in r ==> x in table && !x.deleted)
            && multiset(r) <= multiset(table)
            && (forall i, j :: 0 <= i < j < |r| ==> EpochOf(r[i].at) >= EpochOf(r[j].at))
            && (0 < |r| ==> forall x :: x in table && !x.deleted && EpochOf(x.at) > EpochOf(r[|r| - 1].at) ==> x in r)
  {
    SelectNewest(table, SensorIsLive, SensorInstant, limit);
  }

  lemma LatestWeatherMeaning(table: seq<WeatherRecord>, limit: nat)
    ensures var r := LatestWeather(table, limit);
            && |r| == Min(limit, |Filter(table, WeatherIsLive)|)
            && (forall x :: x in r ==> x in table && !x.deleted)
            && multiset(r) <= multiset(table)
            && (forall i, j :: 0 <= i < j < |r| ==> EpochOf(r[i].at) >= EpochOf(r[j].at))
            && (0 < |r| ==> forall x :: x in table && !x.deleted && EpochOf(x.at) > EpochOf(r[|r| - 1].at) ==> x in r)
  {
    SelectNewest(table, WeatherIsLive, WeatherInstant, limit);
  }

  /** The time of day a reading's timestamp shows, as a duration, is its clock text. */
  lemma SecondOfDayText(t: PyDateTime)
    ensures DurationText(SecondOfDay(t)) == ClockText(t.hour, t.minute, t.second)
  {
    var s := SecondOfDay(t);
    assert s / 3600 == t.hour && s % 3600 / 60 == t.minute && s % 60 == t.second;
    DurationTextOfDay(s);
  }

  /** A successful latest-sensor query renders, row for row, the selected readings. */
  lemma LatestSensorDataRows(table: seq<SensorRecord>, limit: int, db: Connection)
    requires db.connected && Raised(db, limit).None?
    ensures var rows := LatestSensorData(table, limit, db);
            var found := LatestSensors(table, limit);
            && |rows| == |found|
            && forall i :: 0 <= i < |rows| ==> rows[i] == FormatRow(SensorDisplay(found[i]))
  {
  }

  lemma LatestWeatherDataRows(table: seq<WeatherRecord>, limit: int, db: Connection)
    requires db.connected && Raised(db, limit).None?
    ensures var rows := LatestWeatherData(table, limit, db);
            var found := LatestWeather(table, limit);
            && |rows| == |found|
            && forall i :: 0 <= i < |rows| ==> rows[i] == FormatRow(WeatherDisplay(found[i]))
  {
  }

  /** The `date` and `time` texts of a rendered row, joined as `format_timestamp` joins them. */
  function ShownInstant(row: Dict): Option<string>
  {
    if "date" in row && "time" in row && row["date"].TextCell? && row["time"].TextCell?
    then Some(row["date"].text + " " + row["time"].text)
    else None
  }

  /**
   * A rendered sensor row shows the `YYYY-MM-DD` date and `HH:MM:SS` time of the reading's
   * timestamp, which together are `format_timestamp`'s text of that second.
   */
  lemma SensorRowShown(r: SensorRecord)
    ensures ShownInstant(FormatRow(SensorDisplay(r))) == Some(DateTimeText(r.at))
  {
    var display := SensorDisplay(r);
    assert "date" in display && display["date"] == DateCell(r.at.date);
    assert "time" in display && display["time"] == DeltaCell(SecondOfDay(r.at));
    RenderedInstant(display, r.at);
  }

  lemma WeatherRowShown(r: WeatherRecord)
    ensures ShownInstant(FormatRow(WeatherDisplay(r))) == Some(DateTimeText(r.at))
  {
    var display := WeatherDisplay(r);
    assert "date" in display && display["date"] == DateCell(r.at.date);
    assert "time" in display && display["time"] == DeltaCell(SecondOfDay(r.at));
    RenderedInstant(display, r.at);
  }

  /** A row holding a reading's date and its time of day shows that reading's instant. */
  lemma RenderedInstant(display: Dict, at: PyDateTime)
    requires "date" in display && display["date"] == DateCell(at.date)
    requires "time" in display && display["time"] == DeltaCell(SecondOfDay(at))
    ensures ShownInstant(FormatRow(display)) == Some(DateTimeText(at))
  {
    SecondOfDayText(at);
    var row := FormatRow(display);
    assert row["date"] == TextCell(DateText(at.date));
    assert row["time"] == TextCell(DurationText(SecondOfDay(at)));
  }

  // ---------------------------------------------------------------------------------------
  // get_combined_data: weather LEFT JOIN sensors UNION weather RIGHT JOIN sensors
  // ---------------------------------------------------------------------------------------

  /** SQL's COALESCE of two columns. */
  function Coalesce(a: Cell, b: Cell): Cell
  {
    if a.NullCell? then b else a
  }

  const NullMeasures := Measures(NullCell, NullCell, NullCell, NullCell, NullCell, NullCell, NullCell, NullCell)

  /**
   * One row of either join: the weather side's columns are NULL when no weather reading has
   * the instant, the sensor side's when no sensor reading has it.
   */
  function Combine(w: Option<WeatherRecord>, s: Option<SensorRecord>): Dict
  {
    var wDate := if w.Some? then w.value.date else NullCell;
    var wTime := if w.Some? then w.value.time else NullCell;
    var sDate := if s.Some? then s.value.date else NullCell;
    var sTime := if s.Some? then s.value.time else NullCell;
    MeasureColumns(if w.Some? then w.value.measures else NullMeasures)
      + map["date" := Coalesce(wDate, sDate), "time" := Coalesce(wTime, sTime),
            "moisture" := if s.Some? then s.value.moisture else NullCell,
            "sort_ts" := if w.Some? then DateTimeCell(w.value.at)
                         else if s.Some? then DateTimeCell(s.value.at) else NullCell]
  }

  /** The join condition `W.timestamp = S.timestamp`. */
  function SameInstant(w: WeatherRecord, s: SensorRecord): bool
  {
    w.at == s.at
  }

  /** The `UNION` of `W LEFT JOIN S` and `W RIGHT JOIN S`, duplicates removed. */
  function Union(weather: seq<WeatherRecord>, sensors: seq<SensorRecord>): seq<Dict>
  {
    Distinct(LeftJoin(weather, sensors, SameInstant, Combine) + RightJoin(weather, sensors, SameInstant, Combine))
  }

  /**
   * The union holds, once each, exactly the rows of the full outer join of the two tables
   * on the timestamp: every weather reading with every sensor reading of the same second,
   * and every reading of either table that has no partner, with the other side NULL.
   */
  lemma UnionIsOuterJoin(weather: seq<WeatherRecord>, sensors: seq<SensorRecord>)
    ensures forall row :: row in Union(weather, sensors) <==>
              InFullOuterJoin(row, weather, sensors, SameInstant, Combine)
    ensures NoDuplicates(Union(weather, sensors))
  {
    UnionIsFullOuterJoin(weather, sensors, SameInstant, Combine);
  }

  /** The epoch second of a row's `sort_ts` column. */
  function SortInstant(row: Dict): int
  {
    if "sort_ts" in row && row["sort_ts"].DateTimeCell? then EpochOf(row["sort_ts"].at) else 0
  }

  /** No `WHERE`: the time bounds of `timestamp_filter` are not part of this model. */
  function AnyRow(row: Dict): bool
  {
    true
  }

  function CombinedRows(weather: seq<WeatherRecord>, sensors: seq<SensorRecord>, limit: nat): seq<Dict>
  {
    Select(Union(weather, sensors), AnyRow, Descending(SortInstant), limit)
  }

  /**
   * The combined rows are distinct rows of the full outer join, as many as the limit allows,
   * newest `sort_ts` first; no row of the join newer than the oldest one returned is left out.
   */
  lemma CombinedRowsMeaning(weather: seq<WeatherRecord>, sensors: seq<SensorRecord>, limit: nat)
    ensures var r := CombinedRows(weather, sensors, limit);
            && |r| == Min(limit, |Union(weather, sensors)|)
            && (forall row :: row in r ==> InFullOuterJoin(row, weather, sensors, SameInstant, Combine))
            && NoDuplicates(r)
            && (forall i, j :: 0 <= i < j < |r| ==> SortInstant(r[i]) >= SortInstant(r[j]))
            && (0 < |r| ==> forall row :: (&& InFullOuterJoin(row, weather, sensors, SameInstant, Combine)
                                          && SortInstant(row) > SortInstant(r[|r| - 1])) ==> row in r)
  {
    var r := CombinedRows(weather, sensors, limit);
    UnionIsOuterJoin(weather, sensors);
    SelectFromAll(Union(weather, sensors), AnyRow, Descending(SortInstant), limit);
    SortedDescending(r, SortInstant);
    CombinedRowsNewest(weather, sensors, limit);
  }

  /** No row of the union newer than the oldest combined row is left out. */
  lemma CombinedRowsNewest(weather: seq<WeatherRecord>, sensors: seq<SensorRecord>, limit: nat)
    ensures var r := CombinedRows(weather, sensors, limit);
            0 < |r| ==> forall row :: (&& InFullOuterJoin(row, weather, sensors, SameInstant, Combine)
                                       && SortInstant(row) > SortInstant(r[|r| - 1])) ==> row in r
  {
    var r := CombinedRows(weather, sensors, limit);
    UnionIsOuterJoin(weather, sensors);
    SelectFromAll(Union(weather, sensors), AnyRow, Descending(SortInstant), limit);
    if 0 < |r| {
      forall row | InFullOuterJoin(row, weather, sensors, SameInstant, Combine) && SortInstant(row) > SortInstant(r[|r| - 1])
        ensures row in r
      {
        assert Descending(SortInstant)(row) < Descending(SortInstant)(r[|r| - 1]);
      }
    }
  }

  /** `cursor.fetchall()`: a fresh dict per selected row. */
  method Fetch(found: seq<Dict>) returns (rows: seq<Row>)
    ensures |rows| == |found|
    ensures forall k :: 0 <= k < |rows| ==> fresh(rows[k]) && rows[k].cells == found[k]
    ensures forall k, m :: 0 <= k < m < |rows| ==> rows[k] != rows[m]
  {
    rows := [];
    var i := 0;
    while i < |found|
      invariant 0 <= i <= |found| && |rows| == i
      invariant forall k :: 0 <= k < i ==> fresh(rows[k]) && rows[k].cells == found[k]
      invariant forall k, m :: 0 <= k < m < i ==> rows[k] != rows[m]
    {
      var row := new Row(found[i]);
      rows := rows + [row];
      i := i + 1;
    }
  }

  /** `for row in data: row.pop(key, None)`. */
  method PopAll(rows: seq<Row>, key: string)
    requires forall k, m :: 0 <= k < m < |rows| ==> rows[k] != rows[m]
    modifies set r | r in rows
    ensures forall k :: 0 <= k < |rows| ==> rows[k].cells == old(rows[k].cells) - {key}
  {
    var j := 0;
    while j < |rows|
      invariant 0 <= j <= |rows|
      invariant forall k :: 0 <= k < |rows| ==>
                  rows[k].cells == if k < j then old(rows[k].cells) - {key} else old(rows[k].cells)
    {
      rows[j].Pop(key);
      j := j + 1;
    }
  }

  /**
   * `get_combined_data` without time bounds: the selected rows are fetched as fresh dicts,
   * rendered by `format_for_frontend`, and stripped of their `sort_ts` column in place.
   */
  method GetCombinedData(weather: seq<WeatherRecord>, sensors: seq<SensorRecord>, limit: int, db: Connection)
    returns (out: seq<Row>)
    ensures !db.connected ==>
              |out| == 1 && out[0].cells == ErrorDict("Database connection failed at get_combined_data.")
    ensures db.connected && Raised(db, limit).Some? ==>
              |out| == 1 && out[0].cells == ErrorDict(Raised(db, limit).value)
    ensures db.connected && Raised(db, limit).None? ==>
              var found := CombinedRows(weather, sensors, limit);
              && |out| == |found|
              && forall i :: 0 <= i < |out| ==> out[i].cells == FormatRow(found[i]) - {"sort_ts"}
    ensures forall i :: 0 <= i < |out| ==> fresh(out[i])
  {
    if !db.connected {
      var failed := new Row(ErrorDict("Database connection failed at get_combined_data."));
      return [failed];
    }
    var raised := Raised(db, limit);
    if raised.Some? {
      var failed := new Row(ErrorDict(raised.value));
      return [failed];
    }
    var found := CombinedRows(weather, sensors, limit);
    var fetched := Fetch(found);
    out := FormatForFrontend(RowList(fetched));
    assert out == fetched;
    PopAll(out, "sort_ts");
  }

  // ---------------------------------------------------------------------------------------
  // get_audio_environmental_data_logic, get_sensor_data_for_audio, get_weather_data_for_audio
  // ---------------------------------------------------------------------------------------

  /** `t BETWEEN start AND end`; a NULL bound makes the test NULL, which admits no row. */
  predicate Between(t: int, start: Option<int>, end: Option<int>)
  {
    start.Some? && end.Some? && start.value <= t <= end.value
  }

  function SensorInWindow(start: Option<int>, end: Option<int>): SensorRecord -> bool
  {
    (s: SensorRecord) => Between(SensorInstant(s), start, end)
  }

  function WeatherInWindow(start: Option<int>, end: Option<int>): WeatherRecord -> bool
  {
    (w: WeatherRecord) => Between(WeatherInstant(w), start, end)
  }

  /** `SELECT * FROM SENSOR_DATA WHERE timestamp BETWEEN start AND end ORDER BY timestamp ASC`. */
  function SensorsDuring(sensors: seq<SensorRecord>, start: Option<int>, end: Option<int>): seq<SensorRecord>
  {
    SortBy(Filter(sensors, SensorInWindow(start, end)), SensorInstant)
  }

  function WeatherDuring(weather: seq<WeatherRecord>, start: Option<int>, end: Option<int>): seq<WeatherRecord>
  {
    SortBy(Filter(weather, WeatherInWindow(start, end)), WeatherInstant)
  }

  /**
   * The readings of a window are exactly the readings whose timestamp lies within it, bounds
   * included and deleted readings too, each as often as in the table, oldest first; a window
   * with a NULL bound holds none.
   */
  lemma SensorsDuringMeaning(sensors: seq<SensorRecord>, start: Option<int>, end: Option<int>)
    ensures var r := SensorsDuring(sensors, start, end);
            && (forall x: SensorRecord :: Between(EpochOf(x.at), start, end) ==> multiset(r)[x] == multiset(sensors)[x])
            && (forall x: SensorRecord :: !Between(EpochOf(x.at), start, end) ==> multiset(r)[x] == 0)
            && (forall i, j :: 0 <= i < j < |r| ==> EpochOf(r[i].at) <= EpochOf(r[j].at))
            && (start.None? || end.None? ==> r == [])
  {
    OrderedFilter(sensors, SensorInWindow(start, end), SensorInstant);
    if start.None? || end.None? {
      FilterNone(sensors, SensorInWindow(start, end));
    }
  }

  lemma WeatherDuringMeaning(weather: seq<WeatherRecord>, start: Option<int>, end: Option<int>)
    ensures var r := WeatherDuring(weather, start, end);
            && (forall x: WeatherRecord :: Between(EpochOf(x.at), start, end) ==> multiset(r)[x] == multiset(weather)[x])
            && (forall x: WeatherRecord :: !Between(EpochOf(x.at), start, end) ==> multiset(r)[x] == 0)
            && (forall i, j :: 0 <= i < j < |r| ==> EpochOf(r[i].at) <= EpochOf(r[j].at))
            && (start.None? || end.None? ==> r == [])
  {
    OrderedFilter(weather, WeatherInWindow(start, end), WeatherInstant);
    if start.None? || end.None? {
      FilterNone(weather, WeatherInWindow(start, end));
    }
  }

  /** A SENSOR_DATA row as `SELECT *` returns it. */
  function SensorColumns(r: SensorRecord): Dict
  {
    map["sensor_id" := IntegerCell(r.id), "timestamp" := DateTimeCell(r.at), "date" := r.date,
        "time" := r.time, "moisture" := r.moisture, "is_deleted" := Flag(r.deleted)]
  }

  /** A WEATHER_DATA row as `SELECT *` returns it. */
  function WeatherColumns(r: WeatherRecord): Dict
  {
    MeasureColumns(r.measures) + map["weather_id" := IntegerCell(r.id), "timestamp" := DateTimeCell(r.at),
                                     "date" := r.date, "time" := r.time, "is_deleted" := Flag(r.deleted)]
  }

  /** `SELECT start_time, end_time FROM AUDIO_RECORDING WHERE id = %s` and `fetchone()`. */
  function FindById(audio: seq<AudioRow>, audioId: int): (r: Option<nat>)
    ensures r.Some? ==> r.value < |audio| && audio[r.value].id == audioId
    ensures r.Some? ==> forall j :: 0 <= j < r.value ==> audio[j].id != audioId
    ensures r.None? ==> forall j :: 0 <= j < |audio| ==> audio[j].id != audioId
  {
    if audio == [] then None
    else if audio[0].id == audioId then Some(0)
    else
      match FindById(audio[1..], audioId)
      case None => None
      case Some(k) => Some(k + 1)
  }

  /** `{"error": message}` or `{"sensor_data": .., "weather_data": ..}`. */
  datatype EnvironmentalReply =
    | EnvironmentalError(message: string)
    | EnvironmentalData(sensorData: seq<Dict>, weatherData: seq<Dict>)

  /**
   * `get_audio_environmental_data_logic`: the recording's window is looked up, and the
   * sensor and weather readings inside it are returned rendered; no connection and an
   * unknown id are the two error replies.
   */
  function AudioEnvironmentalData(audio: seq<AudioRow>, sensors: seq<SensorRecord>,
                                  weather: seq<WeatherRecord>, audioId: int, connected: bool)
    : (reply: EnvironmentalReply)
    ensures !connected <==> reply == EnvironmentalError("DB connection failed.")
    ensures connected ==>
              (reply == EnvironmentalError("Audio recroding not found") <==>
               forall j :: 0 <= j < |audio| ==> audio[j].id != audioId)
    ensures reply.EnvironmentalData? ==>
              && FindById(audio, audioId).Some?
              && var a := audio[FindById(audio, audioId).value];
              var found := SensorsDuring(sensors, a.start, a.end);
              var seen := WeatherDuring(weather, a.start, a.end);
              && |reply.sensorData| == |found|
              && |reply.weatherData| == |seen|
              && (forall i :: 0 <= i < |found| ==> reply.sensorData[i] == FormatRow(SensorColumns(found[i])))
              && (forall i :: 0 <= i < |seen| ==> reply.weatherData[i] == FormatRow(WeatherColumns(seen[i])))
  {
    if !connected then EnvironmentalError("DB connection failed.")
    else match FindById(audio, audioId)
      case None => EnvironmentalError("Audio recroding not found")
      case Some(k) =>
        var found := SensorsDuring(sensors, audio[k].start, audio[k].end);
        var seen := WeatherDuring(weather, audio[k].start, audio[k].end);
        EnvironmentalData(FormatRows(seq(|found|, i requires 0 <= i < |found| => SensorColumns(found[i]))),
                          FormatRows(seq(|seen|, i requires 0 <= i < |seen| => WeatherColumns(seen[i]))))
  }

  /** `a.id = %s AND s.timestamp BETWEEN a.start_time AND a.end_time`. */
  function SensorPairs(audioId: int): (AudioRow, SensorRecord) -> bool
  {
    (a: AudioRow, s: SensorRecord) => a.id == audioId && Between(SensorInstant(s), a.start, a.end)
  }

  function WeatherPairs(audioId: int): (AudioRow, WeatherRecord) -> bool
  {
    (a: AudioRow, w: WeatherRecord) => a.id == audioId && Between(WeatherInstant(w), a.start, a.end)
  }

  /** `SENSOR_DATA s JOIN AUDIO_RECORDING a ON a.id = %s WHERE .. ORDER BY s.timestamp ASC`. */
  function SensorsForAudio(audio: seq<AudioRow>, sensors: seq<SensorRecord>, audioId: int): seq<SensorRecord>
  {
    SortBy(Gather(audio, sensors, SensorPairs(audioId)), SensorInstant)
  }

  function WeatherForAudio(audio: seq<AudioRow>, weather: seq<WeatherRecord>, audioId: int): seq<WeatherRecord>
  {
    SortBy(Gather(audio, weather, WeatherPairs(audioId)), WeatherInstant)
  }

  /** The columns `get_sensor_data_for_audio` selects, unrendered. */
  function SensorAudioColumns(r: SensorRecord): Dict
  {
    map["timestamp" := DateTimeCell(r.at), "date" := r.date, "time" := r.time, "moisture" := r.moisture]
  }

  /** `get_sensor_data_for_audio`: the joined readings; any failure gives an empty list. */
  function SensorDataForAudio(audio: seq<AudioRow>, sensors: seq<SensorRecord>, audioId: int, db: Connection)
    : (rows: seq<Dict>)
    ensures !db.connected || db.raised.Some? ==> rows == []
    ensures db.connected && db.raised.None? ==>
              var found := SensorsForAudio(audio, sensors, audioId);
              && |rows| == |found|
              && forall i :: 0 <= i < |rows| ==> rows[i] == SensorAudioColumns(found[i])
  {
    if !db.connected || db.raised.Some? then []
    else
      var found := SensorsForAudio(audio, sensors, audioId);
      seq(|found|, i requires 0 <= i < |found| => SensorAudioColumns(found[i]))
  }

  /** `get_weather_data_for_audio`: `w.*` of the joined readings; any failure gives an empty list. */
  function WeatherDataForAudio(audio: seq<AudioRow>, weather: seq<WeatherRecord>, audioId: int, db: Connection)
    : (rows: seq<Dict>)
    ensures !db.connected || db.raised.Some? ==> rows == []
    ensures db.connected && db.raised.None? ==>
              var found := WeatherForAudio(audio, weather, audioId);
              && |rows| == |found|
              && forall i :: 0 <= i < |rows| ==> rows[i] == WeatherColumns(found[i])
  {
    if !db.connected || db.raised.Some? then []
    else
      var found := WeatherForAudio(audio, weather, audioId);
      seq(|found|, i requires 0 <= i < |found| => WeatherColumns(found[i]))
  }

  /**
   * A reading is returned for an audio id exactly when some recording with that id has a
   * window holding the reading's timestamp; the readings come oldest first.
   */
  lemma SensorsForAudioMeaning(audio: seq<AudioRow>, sensors: seq<SensorRecord>, audioId: int, x: SensorRecord)
    ensures x in SensorsForAudio(audio, sensors, audioId) <==>
              x in sensors && exists a :: a in audio && a.id == audioId && Between(EpochOf(x.at), a.start, a.end)
    ensures SortedBy(SensorsForAudio(audio, sensors, audioId), SensorInstant)
  {
    OrderedGather(audio, sensors, SensorPairs(audioId), SensorInstant, x);
    if exists a :: a in audio && a.id == audioId && Between(EpochOf(x.at), a.start, a.end) {
      var a :| a in audio && a.id == audioId && Between(EpochOf(x.at), a.start, a.end);
      assert SensorPairs(audioId)(a, x);
    }
    if exists a :: a in audio && SensorPairs(audioId)(a, x) {
      var a :| a in audio && SensorPairs(audioId)(a, x);
      assert a.id == audioId && Between(EpochOf(x.at), a.start, a.end);
    }
  }

  lemma WeatherForAudioMeaning(audio: seq<AudioRow>, weather: seq<WeatherRecord>, audioId: int, x: WeatherRecord)
    ensures x in WeatherForAudio(audio, weather, audioId) <==>
              x in weather && exists a :: a in audio && a.id == audioId && Between(EpochOf(x.at), a.start, a.end)
    ensures SortedBy(WeatherForAudio(audio, weather, audioId), WeatherInstant)
  {
    OrderedGather(audio, weather, WeatherPairs(audioId), WeatherInstant, x);
    if exists a :: a in audio && a.id == audioId && Between(EpochOf(x.at), a.start, a.end) {
      var a :| a in audio && a.id == audioId && Between(EpochOf(x.at), a.start, a.end);
      assert WeatherPairs(audioId)(a, x);
    }
    if exists a :: a in audio && WeatherPairs(audioId)(a, x) {
      var a :| a in audio && WeatherPairs(audioId)(a, x);
      assert a.id == audioId && Between(EpochOf(x.at), a.start, a.end);
    }
  }

  /** Recording ids are the primary key of AUDIO_RECORDING. */
  predicate DistinctIds(audio: seq<AudioRow>)
  {
    forall i, j :: 0 <= i < j < |audio| ==> audio[i].id != audio[j].id
  }

  /**
   * With distinct ids the join reads the same readings, in the same order, as the window
   * query of `get_audio_environmental_data_logic`, and nothing for an unknown id.
   */
  lemma SensorsForAudioIsWindow(audio: seq<AudioRow>, sensors: seq<SensorRecord>, audioId: int)
    requires DistinctIds(audio)
    ensures FindById(audio, audioId).None? ==> SensorsForAudio(audio, sensors, audioId) == []
    ensures FindById(audio, audioId).Some? ==>
              var a := audio[FindById(audio, audioId).value];
              SensorsForAudio(audio, sensors, audioId) == SensorsDuring(sensors, a.start, a.end)
  {
    match FindById(audio, audioId)
    case None =>
      GatherNone(audio, sensors, SensorPairs(audioId));
    case Some(k) =>
      var a := audio[k];
      GatherOne(audio, sensors, SensorPairs(audioId), k);
      FilterAgree(sensors, PartnersOf(a, SensorPairs(audioId)), SensorInWindow(a.start, a.end));
  }

  lemma WeatherForAudioIsWindow(audio: seq<AudioRow>, weather: seq<WeatherRecord>, audioId: int)
    requires DistinctIds(audio)
    ensures FindById(audio, audioId).None? ==> WeatherForAudio(audio, weather, audioId) == []
    ensures FindById(audio, audioId).Some? ==>
              var a := audio[FindById(audio, audioId).value];
              WeatherForAudio(audio, weather, audioId) == WeatherDuring(weather, a.start, a.end)
  {
    match FindById(audio, audioId)
    case None =>
      GatherNone(audio, weather, WeatherPairs(audioId));
    case Some(k) =>
      var a := audio[k];
      GatherOne(audio, weather, WeatherPairs(audioId), k);
      FilterAgree(weather, PartnersOf(a, WeatherPairs(audioId)), WeatherInWindow(a.start, a.end));
  }

  /**
   * A rendered `SELECT *` sensor row holds the table's six columns, the timestamp as
   * `format_timestamp`'s text.
   */
  lemma SensorColumnsShown(r: SensorRecord)
    ensures FormatRow(SensorColumns(r)).Keys == {"sensor_id", "timestamp", "date", "time", "moisture", "is_deleted"}
    ensures FormatRow(SensorColumns(r))["timestamp"] == TextCell(DateTimeText(r.at))
  {
    var row := SensorColumns(r);
    assert row["timestamp"] == DateTimeCell(r.at);
  }

  /**
   * A rendered `SELECT *` weather row holds the eight measure columns and the table's own
   * five, the timestamp as `format_timestamp`'s text.
   */
  lemma WeatherColumnsShown(r: WeatherRecord)
    ensures FormatRow(WeatherColumns(r)).Keys == MeasureColumns(r.measures).Keys + {"weather_id", "timestamp", "date", "time", "is_deleted"}
    ensures FormatRow(WeatherColumns(r))["timestamp"] == TextCell(DateTimeText(r.at))
  {
    var row := WeatherColumns(r);
    assert row["timestamp"] == DateTimeCell(r.at);
  }

  /** The columns the audio join selects are columns of `SELECT *`, with the same values. */
  lemma SensorAudioColumnsInside(r: SensorRecord)
    ensures forall c :: c in SensorAudioColumns(r) ==> c in SensorColumns(r) && SensorColumns(r)[c] == SensorAudioColumns(r)[c]
  {
  }

  /**
   * For a known recording, the environmental reply lists the same sensor readings, in the
   * same order, as `get_sensor_data_for_audio`: row for row both come from the same reading,
   * and every column of the joined row appears in the reply's row, rendered.
   */
  lemma EnvironmentalSensorsMatch(audio: seq<AudioRow>, sensors: seq<SensorRecord>,
                                  weather: seq<WeatherRecord>, audioId: int, db: Connection)
    requires DistinctIds(audio) && db.connected && db.raised.None?
    requires FindById(audio, audioId).Some?
    ensures var reply := AudioEnvironmentalData(audio, sensors, weather, audioId, true);
            var joined := SensorDataForAudio(audio, sensors, audioId, db);
            var found := SensorsForAudio(audio, sensors, audioId);
            && |reply.sensorData| == |joined| == |found|
            && forall i :: 0 <= i < |joined| ==>
                 && reply.sensorData[i] == FormatRow(SensorColumns(found[i]))
                 && joined[i] == SensorAudioColumns(found[i])
                 && forall c :: c in joined[i] ==> c in reply.sensorData[i] && reply.sensorData[i][c] == FormatCell(joined[i][c])
  {
    var reply := AudioEnvironmentalData(audio, sensors, weather, audioId, true);
    var joined := SensorDataForAudio(audio, sensors, audioId, db);
    var found := SensorsForAudio(audio, sensors, audioId);
    SensorsForAudioIsWindow(audio, sensors, audioId);
    forall i | 0 <= i < |joined|
      ensures reply.sensorData[i] == FormatRow(SensorColumns(found[i]))
      ensures joined[i] == SensorAudioColumns(found[i])
      ensures forall c :: c in joined[i] ==> c in reply.sensorData[i] && reply.sensorData[i][c] == FormatCell(joined[i][c])
    {
      SensorAudioColumnsInside(found[i]);
    }
  }

  /**
   * For a known recording, the environmental reply's weather rows are, row for row, the rows
   * of `get_weather_data_for_audio` rendered by `format_for_frontend`.
   */
  lemma EnvironmentalWeatherMatch(audio: seq<AudioRow>, sensors: seq<SensorRecord>,
                                  weather: seq<WeatherRecord>, audioId: int, db: Connection)
    requires DistinctIds(audio) && db.connected && db.raised.None?
    requires FindById(audio, audioId).Some?
    ensures var reply := AudioEnvironmentalData(audio, sensors, weather, audioId, true);
            var joined := WeatherDataForAudio(audio, weather, audioId, db);
            && |reply.weatherData| == |joined|
            && forall i :: 0 <= i < |joined| ==> reply.weatherData[i] == FormatRow(joined[i])
  {
    WeatherForAudioIsWindow(audio, weather, audioId);
  }
}

/**
 * The CSV importer of Backend/data_loader.py: the header's column count picks the sensor or
 * the weather table, every later line is stripped, checked against the header's width,
 * mapped onto that table's keys, converted to numbers and offered to the database insert.
 * The database insert is a parameter: it answers whether it stored the record.
 */
module CsvImport {
  import opened Wrappers
  import opened Text
  import opened FloatText

  /** The dictionary keys the importer uses; `Name` gives each one's spelling. */
  datatype Key =
    | Moisture | Timestamp | InTemperature | OutTemperature | InHumidity | OutHumidity
    | WindSpeed | WindDirection | DailyRain | RainRate

  function Name(k: Key): string
  {
    match k
    case Moisture => "moisture"
    case Timestamp => "timestamp"
    case InTemperature => "in_temperature"
    case OutTemperature => "out_temperature"
    case InHumidity => "in_humidity"
    case OutHumidity => "out_humidity"
    case WindSpeed => "wind_speed"
    case WindDirection => "wind_direction"
    case DailyRain => "daily_rain"
    case RainRate => "rain_rate"
  }

  /** The keys a sensor line's columns are mapped onto, in column order. */
  const SensorKeys: seq<Key> := [Moisture, Timestamp]

  /** The keys a weather line's columns are mapped onto, in column order. */
  const WeatherKeys: seq<Key> :=
    [Timestamp, InTemperature, OutTemperature, InHumidity, OutHumidity,
     WindSpeed, WindDirection, DailyRain, RainRate]

  /** Which table the file is imported into. */
  datatype Kind = Sensor | Weather

  /** More than two header columns mean weather data; two or fewer mean sensor data. */
  function KindOf(columns: nat): Kind
  {
    if columns > 2 then Weather else Sensor
  }

  function KeysOf(kind: Kind): seq<Key>
  {
    if kind == Weather then WeatherKeys else SensorKeys
  }

  /** A converted value: `int` for the timestamp, `float` for everything else. */
  datatype Value = Whole(n: int) | Float(x: PyFloat)

  /** The dictionary handed to the insert function. */
  type Record = map<Key, Value>

  /** The file at the given path: absent, failing to open or decode, or its lines. */
  datatype CsvFile = Missing | Unreadable(reason: string) | Lines(lines: seq<string>)

  /** The dictionary `process_csv_file` returns. */
  datatype ImportResult =
    | ImportError(message: string)
    | Completed(successCount: nat, failCount: nat, message: string)

  function Min(a: nat, b: nat): nat
  {
    if a <= b then a else b
  }

  /** The fields the CSV reader yields for one line: none for an empty line. */
  function SplitRecord(line: string, delimiter: char): (fields: seq<string>)
    ensures line == [] <==> fields == []
  {
    if line == [] then [] else SplitOn(line, delimiter)
  }

  /** `[x.strip() for x in row]`. */
  function CleanRow(fields: seq<string>): (clean: seq<string>)
    ensures |clean| == |fields| && forall i :: 0 <= i < |fields| ==> clean[i] == Strip(fields[i])
  {
    seq(|fields|, i requires 0 <= i < |fields| => Strip(fields[i]))
  }

  /** `dict(zip(keys, values[..n]))` with `n` pairs: the keys among the first `n`. */
  function ZipPrefix(keys: seq<Key>, values: seq<string>, n: nat): (d: map<Key, string>)
    requires n <= |keys| && n <= |values|
    ensures forall i :: 0 <= i < n ==> keys[i] in d
    ensures forall k :: k in d ==> k in keys
  {
    if n == 0 then map[]
    else
      ZipPrefix(keys, values, n - 1)[keys[n - 1] := values[n - 1]]
  }

  /** Adding the `n`-th pair leaves the value of a different key alone. */
  lemma ZipPrefixOther(keys: seq<Key>, values: seq<string>, n: nat, k: Key)
    requires 0 < n <= |keys| && n <= |values|
    requires k in ZipPrefix(keys, values, n - 1) && k != keys[n - 1]
    ensures k in ZipPrefix(keys, values, n)
    ensures ZipPrefix(keys, values, n)[k] == ZipPrefix(keys, values, n - 1)[k]
  {
  }

  /**
   * A key among the first `n` that no later one of them repeats is mapped to the value
   * beside it (a repeated key keeps its last value, as `dict` does).
   */
  lemma {:induction false} ZipPrefixValue(keys: seq<Key>, values: seq<string>, n: nat, i: nat)
    requires i < n <= |keys| && n <= |values|
    requires forall j :: i < j < n ==> keys[j] != keys[i]
    ensures keys[i] in ZipPrefix(keys, values, n)
    ensures ZipPrefix(keys, values, n)[keys[i]] == values[i]
  {
    if i < n - 1 {
      ZipPrefixValue(keys, values, n - 1, i);
      ZipPrefixOther(keys, values, n, keys[i]);
    }
  }

  /** Only the first `n` keys are in the dictionary. */
  lemma {:induction false} ZipPrefixDomain(keys: seq<Key>, values: seq<string>, n: nat)
    requires n <= |keys| && n <= |values|
    ensures forall k :: k in ZipPrefix(keys, values, n) ==> k in keys[..n]
  {
    if n > 0 {
      ZipPrefixDomain(keys, values, n - 1);
      assert keys[..n] == keys[..n - 1] + [keys[n - 1]];
    }
  }

  /** `dict(zip(keys, values))`: as many pairs as the shorter of the two has. */
  function Zip(keys: seq<Key>, values: seq<string>): map<Key, string>
  {
    ZipPrefix(keys, values, Min(|keys|, |values|))
  }

  /** Every value other than the timestamp's is a float literal. */
  predicate OthersAreFloats(raw: map<Key, string>)
  {
    forall k :: k in raw && k != Timestamp ==> ParseFloat(raw[k]).Some?
  }

  /** The converted dictionary once every value converts: the timestamp becomes `stamp`. */
  function Converted(raw: map<Key, string>, stamp: int): Record
    requires OthersAreFloats(raw)
  {
    map k | k in raw :: if k == Timestamp then Whole(stamp) else Float(ParseFloat(raw[k]).value)
  }

  /**
   * The conversion step: None where Python raises (no `timestamp` key, a timestamp that is
   * no finite float, another value that is no float); otherwise the timestamp as
   * `int(float(...))` and every other value as `float(...)`.
   */
  function ConvertRecord(raw: map<Key, string>): Option<Record>
  {
    if Timestamp !in raw then None
    else
      match ParseFloat(raw[Timestamp])
      case Some(Finite(digits, exponent)) =>
        if OthersAreFloats(raw) then Some(Converted(raw, Truncate(digits, exponent))) else None
      case _ => None
  }

  /** A record holding every key of `raw`, each converted, is the converted dictionary. */
  lemma ConvertedComplete(raw: map<Key, string>, stamp: int, record: Record)
    requires Timestamp in raw && Timestamp in record && record[Timestamp] == Whole(stamp)
    requires forall k :: k in record <==> k in raw
    requires forall k :: k in record && k != Timestamp ==>
               ParseFloat(raw[k]).Some? && record[k] == Float(ParseFloat(raw[k]).value)
    ensures OthersAreFloats(raw) && record == Converted(raw, stamp)
  {
  }

  /**
   * The conversion as the importer runs it: the timestamp first, then every other key of
   * the dictionary, stopping at the first value that is no float. Which failing key is met
   * first does not change the outcome, so the keys are taken in any order.
   */
  method ConvertFields(raw: map<Key, string>) returns (r: Option<Record>)
    ensures r == ConvertRecord(raw)
  {
    if Timestamp !in raw {
      return None;
    }
    var t := ParseFloat(raw[Timestamp]);
    if t.None? || !t.value.Finite? {
      return None;
    }
    var stamp := Truncate(t.value.digits, t.value.exponent);
    var record: Record := map[Timestamp := Whole(stamp)];
    var todo := raw.Keys;
    while todo != {}
      invariant todo <= raw.Keys
      invariant Timestamp in record && record[Timestamp] == Whole(stamp)
      invariant forall k :: k in raw ==> k in record || k in todo
      invariant forall k :: k in record ==> k in raw
      invariant forall k {:trigger record[k]} :: k in record && k != Timestamp ==>
                  ParseFloat(raw[k]).Some? && record[k] == Float(ParseFloat(raw[k]).value)
      decreases |todo|
    {
      var k :| k in todo;
      if k != Timestamp {
        var x := ParseFloat(raw[k]);
        if x.None? {
          assert !OthersAreFloats(raw);
          return None;
        }
        record := record[k := Float(x.value)];
      }
      todo := todo - {k};
    }
    ConvertedComplete(raw, stamp, record);
    return Some(record);
  }

  /** What became of one data line. */
  datatype RowOutcome =
    | WidthMismatch                          // not as many fields as the header: not offered
    | Unconvertible                          // conversion raised: not offered
    | Offered(record: Record, accepted: bool) // offered to the insert, which said `accepted`

  /** One data line of a file whose header has `columns` fields. */
  function RowOutcomeOf(columns: nat, line: string, delimiter: char,
                        insert: (Kind, Record) -> bool): RowOutcome
  {
    var clean := CleanRow(SplitRecord(line, delimiter));
    if |clean| != columns then WidthMismatch
    else
      var kind := KindOf(columns);
      match ConvertRecord(Zip(KeysOf(kind), clean))
      case None => Unconvertible
      case Some(record) => Offered(record, insert(kind, record))
  }

  function Outcomes(columns: nat, rows: seq<string>, delimiter: char,
                    insert: (Kind, Record) -> bool): (outcomes: seq<RowOutcome>)
    ensures |outcomes| == |rows|
    ensures forall i :: 0 <= i < |rows| ==> outcomes[i] == RowOutcomeOf(columns, rows[i], delimiter, insert)
  {
    seq(|rows|, i requires 0 <= i < |rows| => RowOutcomeOf(columns, rows[i], delimiter, insert))
  }

  /** The number of lines the insert accepted. */
  function Accepted(outcomes: seq<RowOutcome>): (n: nat)
    ensures n <= |outcomes|
  {
    if outcomes == [] then 0
    else
      var last := outcomes[|outcomes| - 1];
      Accepted(outcomes[..|outcomes| - 1]) + (if last.Offered? && last.accepted then 1 else 0)
  }

  /**
   * One pass of the import loop: strip the fields, check the width, map them onto the keys,
   * convert, and offer the record to the insert; true exactly when the insert accepted it.
   */
  method ImportRow(columns: nat, line: string, delimiter: char, insert: (Kind, Record) -> bool)
    returns (accepted: bool)
    ensures var outcome := RowOutcomeOf(columns, line, delimiter, insert);
            accepted <==> outcome.Offered? && outcome.accepted
  {
    var clean := CleanRow(SplitRecord(line, delimiter));
    if |clean| != columns {
      return false;
    }
    var kind := KindOf(columns);
    var keys := KeysOf(kind);
    var record := ConvertFields(Zip(keys, clean));
    if record.None? {
      return false;
    }
    accepted := insert(kind, record.value);
  }

  /**
   * `process_csv_file`: an error for a missing, unreadable or empty file; otherwise every
   * line after the header counted once, as a success when the insert accepted it and as a
   * failure in every other case.
   */
  method ProcessCsvFile(file: CsvFile, delimiter: char, insert: (Kind, Record) -> bool)
    returns (r: ImportResult)
    ensures file.Missing? ==> r == ImportError("File not found")
    ensures file.Unreadable? ==> r == ImportError(file.reason)
    ensures file.Lines? && file.lines == [] ==> r == ImportError("Empty file")
    ensures file.Lines? && file.lines != [] ==>
              var outcomes := Outcomes(|SplitRecord(file.lines[0], delimiter)|, file.lines[1..],
                                       delimiter, insert);
              r == Completed(Accepted(outcomes), |outcomes| - Accepted(outcomes), "Done")
  {
    if file.Missing? {
      return ImportError("File not found");
    }
    if file.Unreadable? {
      return ImportError(file.reason);
    }
    var lines := file.lines;
    if lines == [] {
      return ImportError("Empty file");
    }
    var columns := |SplitRecord(lines[0], delimiter)|;
    var successCount, failCount := 0, 0;
    var i := 1;
    while i < |lines|
      invariant 1 <= i <= |lines|
      invariant successCount == Accepted(Outcomes(columns, lines[1..i], delimiter, insert))
      invariant successCount + failCount == i - 1
    {
      var accepted := ImportRow(columns, lines[i], delimiter, insert);
      if accepted {
        successCount := successCount + 1;
      } else {
        failCount := failCount + 1;
      }
      AcceptedThrough(columns, lines, i, delimiter, insert);
      i := i + 1;
    }
    assert lines[1..i] == lines[1..];
    return Completed(successCount, failCount, "Done");
  }

  /** Counting one more line adds one exactly when the insert accepted that line. */
  lemma AcceptedStep(columns: nat, rows: seq<string>, delimiter: char, insert: (Kind, Record) -> bool)
    requires rows != []
    ensures var outcome := RowOutcomeOf(columns, rows[|rows| - 1], delimiter, insert);
            Accepted(Outcomes(columns, rows, delimiter, insert))
            == Accepted(Outcomes(columns, rows[..|rows| - 1], delimiter, insert))
               + (if outcome.Offered? && outcome.accepted then 1 else 0)
  {
    var outcomes := Outcomes(columns, rows, delimiter, insert);
    assert outcomes[..|outcomes| - 1] == Outcomes(columns, rows[..|rows| - 1], delimiter, insert);
  }

  /** The count over the lines up to `i` adds line `i`'s own contribution. */
  lemma AcceptedThrough(columns: nat, lines: seq<string>, i: nat, delimiter: char,
                        insert: (Kind, Record) -> bool)
    requires 1 <= i < |lines|
    ensures var outcome := RowOutcomeOf(columns, lines[i], delimiter, insert);
            Accepted(Outcomes(columns, lines[1..i + 1], delimiter, insert))
            == Accepted(Outcomes(columns, lines[1..i], delimiter, insert))
               + (if outcome.Offered? && outcome.accepted then 1 else 0)
  {
    var rows := lines[1..i + 1];
    AcceptedStep(columns, rows, delimiter, insert);
    assert rows[..|rows| - 1] == lines[1..i] && rows[|rows| - 1] == lines[i];
  }

  // ---------------------------------------------------------------------------------------
  // Properties of the import
  // ---------------------------------------------------------------------------------------

  /** A line is offered to the insert only when it has exactly the header's width. */
  lemma WidthMismatchNeverOffered(columns: nat, line: string, delimiter: char,
                                  insert: (Kind, Record) -> bool)
    requires |SplitRecord(line, delimiter)| != columns
    ensures RowOutcomeOf(columns, line, delimiter, insert) == WidthMismatch
  {
  }

  /**
   * An offered record has exactly the chosen table's keys for the header's width, its
   * timestamp as an integer and every other value as a float.
   */
  lemma OfferedRecordShape(columns: nat, line: string, delimiter: char,
                           insert: (Kind, Record) -> bool)
    requires RowOutcomeOf(columns, line, delimiter, insert).Offered?
    ensures var record := RowOutcomeOf(columns, line, delimiter, insert).record;
            var keys := KeysOf(KindOf(columns));
            && (forall k :: k in record <==> k in keys[..Min(columns, |keys|)])
            && Timestamp in record && record[Timestamp].Whole?
            && (forall k :: k in record && k != Timestamp ==> record[k].Float?)
  {
    var clean := CleanRow(SplitRecord(line, delimiter));
    var keys := KeysOf(KindOf(columns));
    var n := Min(|keys|, |clean|);
    var raw := Zip(keys, clean);
    ZipPrefixDomain(keys, clean, n);
    assert forall k :: k in keys[..n] ==> exists i :: 0 <= i < n && keys[i] == k;
    var record := ConvertRecord(raw).value;
    assert forall k :: k in record <==> k in raw;
  }

  /** A header with at most one column (mapped onto `moisture` alone) has no timestamp. */
  lemma NarrowHeaderConvertsNothing(columns: nat, line: string, delimiter: char,
                                    insert: (Kind, Record) -> bool)
    requires columns <= 1
    ensures !RowOutcomeOf(columns, line, delimiter, insert).Offered?
  {
    var clean := CleanRow(SplitRecord(line, delimiter));
    if |clean| == columns {
      ZipPrefixDomain(SensorKeys, clean, columns);
      assert Timestamp !in SensorKeys[..columns];
    }
  }

  /** No insert ever succeeds for a file whose header has fewer than two columns. */
  lemma {:induction false} NarrowHeaderAcceptsNothing(columns: nat, rows: seq<string>, delimiter: char,
                                                      insert: (Kind, Record) -> bool)
    requires columns <= 1
    ensures Accepted(Outcomes(columns, rows, delimiter, insert)) == 0
  {
    if rows != [] {
      AcceptedStep(columns, rows, delimiter, insert);
      NarrowHeaderAcceptsNothing(columns, rows[..|rows| - 1], delimiter, insert);
      NarrowHeaderConvertsNothing(columns, rows[|rows| - 1], delimiter, insert);
    }
  }
}

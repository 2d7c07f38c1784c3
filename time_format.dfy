/**
 * The display formatting of Backend/utils.py: `format_timestamp` (epoch to
 * `YYYY-MM-DD HH:MM:SS`, date and time), the `HH:MM:SS` rendering of durations,
 * `format_for_frontend` (in-place rendering of temporal values in result rows) and
 * `is_allowed_file` (the audio upload extension check). The zone is fixed to UTC.
 */
module TimeFormat {
  import opened Wrappers
  import opened Text
  import opened Calendar

  /** A calendar date that a Python `date` object can hold. */
  type PyDate = d: Date | 1 <= d.year <= 9999 && ValidDate(d) witness Date(1970, 1, 1)

  /** A date and time that a Python `datetime` object can hold (whole seconds). */
  type PyDateTime = t: DateTime | ValidDateTime(t) witness DateTime(Date(1970, 1, 1), 0, 0, 0)

  // ---------------------------------------------------------------------------------------
  // Fixed-width date and clock texts (strftime '%Y-%m-%d', '%H:%M:%S', '%Y-%m-%d %H:%M:%S')
  // ---------------------------------------------------------------------------------------

  function DateText(d: Date): (s: string)
    requires 0 <= d.year < 10000 && 0 <= d.month < 100 && 0 <= d.day < 100
    ensures |s| == 10
  {
    PadDigits(d.year, 4) + "-" + PadDigits(d.month, 2) + "-" + PadDigits(d.day, 2)
  }

  function ClockText(hour: nat, minute: nat, second: nat): (s: string)
    requires hour < 100 && minute < 100 && second < 100
    ensures |s| == 8
  {
    PadDigits(hour, 2) + ":" + PadDigits(minute, 2) + ":" + PadDigits(second, 2)
  }

  function DateTimeText(t: PyDateTime): (s: string)
    ensures |s| == 19
  {
    DateText(t.date) + " " + ClockText(t.hour, t.minute, t.second)
  }

  /** Reads back a `YYYY-MM-DD` text. */
  function ParseDateText(s: string): Option<Date>
  {
    if |s| == 10 && s[4] == '-' && s[7] == '-'
       && AllDigits(s[..4]) && AllDigits(s[5..7]) && AllDigits(s[8..])
    then Some(Date(DigitsValue(s[..4]), DigitsValue(s[5..7]), DigitsValue(s[8..])))
    else None
  }

  /** Reads back an `HH:MM:SS` text as (hour, minute, second). */
  function ParseClockText(s: string): Option<(nat, nat, nat)>
  {
    if |s| == 8 && s[2] == ':' && s[5] == ':'
       && AllDigits(s[..2]) && AllDigits(s[3..5]) && AllDigits(s[6..])
    then Some((DigitsValue(s[..2]), DigitsValue(s[3..5]), DigitsValue(s[6..])))
    else None
  }

  /** Reads back a `YYYY-MM-DD HH:MM:SS` text. */
  function ParseDateTimeText(s: string): Option<DateTime>
  {
    if |s| == 19 && s[10] == ' ' then
      match (ParseDateText(s[..10]), ParseClockText(s[11..]))
      case (Some(d), Some((h, m, sec))) => Some(DateTime(d, h, m, sec))
      case _ => None
    else None
  }

  lemma Pow10Values()
    ensures Pow10(2) == 100 && Pow10(4) == 10000
  {
    assert Pow10(1) == 10;
    assert Pow10(3) == 1000;
  }

  /** Where the three fields and the two separators of `a sep b sep c` sit. */
  lemma ThreeFields(a: string, b: string, c: string, sep: string)
    requires |sep| == 1
    ensures var s := a + sep + b + sep + c;
      && s[..|a|] == a && s[|a|] == sep[0]
      && s[|a| + 1..|a| + 1 + |b|] == b && s[|a| + 1 + |b|] == sep[0]
      && s[|a| + 2 + |b|..] == c
  {
  }

  lemma DateTextRoundTrip(d: PyDate)
    ensures ParseDateText(DateText(d)) == Some(d)
  {
    ThreeFields(PadDigits(d.year, 4), PadDigits(d.month, 2), PadDigits(d.day, 2), "-");
    Pow10Values();
    PadDigitsValue(d.year, 4);
    PadDigitsValue(d.month, 2);
    PadDigitsValue(d.day, 2);
  }

  lemma ClockTextRoundTrip(hour: nat, minute: nat, second: nat)
    requires hour < 100 && minute < 100 && second < 100
    ensures ParseClockText(ClockText(hour, minute, second)) == Some((hour, minute, second))
  {
    ThreeFields(PadDigits(hour, 2), PadDigits(minute, 2), PadDigits(second, 2), ":");
    Pow10Values();
    PadDigitsValue(hour, 2);
    PadDigitsValue(minute, 2);
    PadDigitsValue(second, 2);
  }

  /** The full date-time text loses nothing: it reads back as the date and time it shows. */
  lemma DateTimeTextRoundTrip(t: PyDateTime)
    ensures ParseDateTimeText(DateTimeText(t)) == Some(t)
  {
    var s := DateTimeText(t);
    assert s[..10] == DateText(t.date);
    assert s[11..] == ClockText(t.hour, t.minute, t.second);
    DateTextRoundTrip(t.date);
    ClockTextRoundTrip(t.hour, t.minute, t.second);
  }

  // ---------------------------------------------------------------------------------------
  // format_timestamp
  // ---------------------------------------------------------------------------------------

  /** The Python value handed to `format_timestamp`: an `int`, a `float` or anything else. */
  datatype Numeric = IntNumber(i: int) | FloatNumber(r: real) | NotNumber

  /**
   * What `format_timestamp` gives back: `None` for a non-number, the three texts, or the
   * exception `datetime.fromtimestamp` raises when the year leaves 1..9999.
   */
  datatype TimestampFormat =
    | NotNumeric
    | YearOutOfRange
    | Formatted(timestamp: string, date: string, time: string)

  /** The whole epoch second shown for a number: floats are shown rounded down. */
  function EpochSeconds(x: Numeric): int
    requires !x.NotNumber?
  {
    match x
    case IntNumber(i) => i
    case FloatNumber(r) => r.Floor
  }

  function FormatTimestamp(x: Numeric): (r: TimestampFormat)
    ensures r.NotNumeric? <==> x.NotNumber?
    ensures r.Formatted? ==> r.timestamp == r.date + " " + r.time && |r.date| == 10 && |r.time| == 8
  {
    if x.NotNumber? then NotNumeric
    else
      var t := DateTimeOf(EpochSeconds(x));
      if 1 <= t.date.year <= 9999 then
        Formatted(DateTimeText(t), DateText(t.date), ClockText(t.hour, t.minute, t.second))
      else YearOutOfRange
  }

  /**
   * The formatted texts read back as the UTC date and time of the number, and that date and
   * time is the very epoch second shown.
   */
  lemma FormatTimestampRoundTrip(x: Numeric)
    requires FormatTimestamp(x).Formatted?
    ensures var r := FormatTimestamp(x);
            && ParseDateTimeText(r.timestamp) == Some(DateTimeOf(EpochSeconds(x)))
            && ParseDateText(r.date) == Some(DateTimeOf(EpochSeconds(x)).date)
            && EpochOf(ParseDateTimeText(r.timestamp).value) == EpochSeconds(x)
  {
    var t := DateTimeOf(EpochSeconds(x));
    DateTimeTextRoundTrip(t);
    DateTextRoundTrip(t.date);
  }

  /** Any valid date and time is formatted, and shown as its own text. */
  lemma FormatTimestampOfDateTime(t: PyDateTime)
    ensures FormatTimestamp(IntNumber(EpochOf(t))).Formatted?
    ensures FormatTimestamp(IntNumber(EpochOf(t))).timestamp == DateTimeText(t)
  {
    DateTimeOfEpochOf(t);
  }

  /** Two epoch seconds with the same formatted timestamp are the same second. */
  lemma FormatTimestampInjective(a: int, b: int)
    requires FormatTimestamp(IntNumber(a)).Formatted? && FormatTimestamp(IntNumber(b)).Formatted?
    requires FormatTimestamp(IntNumber(a)).timestamp == FormatTimestamp(IntNumber(b)).timestamp
    ensures a == b
  {
    FormatTimestampRoundTrip(IntNumber(a));
    FormatTimestampRoundTrip(IntNumber(b));
  }

  // ---------------------------------------------------------------------------------------
  // Durations: f"{s // 3600:02}:{(s % 3600) // 60:02}:{s % 60:02}"
  // ---------------------------------------------------------------------------------------

  /** Python's `f"{n:02}"`: at least two characters, zero padded, a minus sign kept in front. */
  function Pad02(n: int): (s: string)
    ensures |s| >= 2 && ':' !in s
  {
    if n < 0 then "-" + DecimalText(-n)
    else if n < 10 then "0" + DecimalText(n)
    else DecimalText(n)
  }

  function DurationText(seconds: int): string
  {
    Pad02(seconds / 3600) + ":" + Pad02(seconds % 3600 / 60) + ":" + Pad02(seconds % 60)
  }

  /** Reads back one field written by `Pad02`. */
  function ParseSignedField(p: string): Option<int>
  {
    if |p| >= 1 && p[0] == '-' then
      if |p| >= 2 && AllDigits(p[1..]) then Some(0 - DigitsValue(p[1..])) else None
    else if |p| >= 1 && AllDigits(p) then Some(DigitsValue(p))
    else None
  }

  /** Reads back an `H:MM:SS` duration as (hours, minutes, seconds). */
  function ParseDuration(s: string): Option<(int, int, int)>
  {
    var pieces := SplitOn(s, ':');
    if |pieces| == 3 then
      match (ParseSignedField(pieces[0]), ParseSignedField(pieces[1]), ParseSignedField(pieces[2]))
      case (Some(h), Some(m), Some(sec)) => Some((h, m, sec))
      case _ => None
    else None
  }

  lemma ParseNegativeField(d: string)
    requires |d| >= 1 && AllDigits(d)
    ensures ParseSignedField("-" + d) == Some(0 - DigitsValue(d))
  {
    assert ("-" + d)[1..] == d;
  }

  lemma ParseUnsignedField(d: string)
    requires |d| >= 1 && AllDigits(d)
    ensures ParseSignedField(d) == Some(DigitsValue(d))
  {
    assert IsDigit(d[0]);
  }

  /** A one-digit number behind a '0' still reads as itself. */
  lemma ZeroPaddedValue(n: nat)
    requires n < 10
    ensures AllDigits("0" + DecimalText(n)) && DigitsValue("0" + DecimalText(n)) == n
  {
    var s := "0" + DecimalText(n);
    assert s[..1] == "0";
    assert DigitsValue("0") == 0 by { assert "0"[..0] == []; }
  }

  lemma Pad02RoundTrip(n: int)
    ensures ParseSignedField(Pad02(n)) == Some(n)
  {
    if n < 0 {
      Pad02Neg(n);
    } else if n < 10 {
      Pad02Small(n);
    } else {
      Pad02Large(n);
    }
  }

  lemma Pad02Neg(n: int)
    requires n < 0
    ensures ParseSignedField(Pad02(n)) == Some(n)
  {
    NegativeText(-n);
  }

  /** A minus sign before the decimal text of `m` reads back as `-m`. */
  lemma NegativeText(m: nat)
    ensures ParseSignedField("-" + DecimalText(m)) == Some(0 - m)
  {
    DecimalTextValue(m);
    ParseNegativeField(DecimalText(m));
  }

  lemma Pad02Small(n: int)
    requires 0 <= n < 10
    ensures ParseSignedField(Pad02(n)) == Some(n)
  {
    ZeroPaddedValue(n);
    ParseUnsignedField("0" + DecimalText(n));
  }

  lemma Pad02Large(n: int)
    requires 10 <= n
    ensures ParseSignedField(Pad02(n)) == Some(n)
  {
    DecimalTextValue(n);
    ParseUnsignedField(DecimalText(n));
  }

  /** Agreement with the clock text for the numbers a clock shows. */
  lemma Pad02Clock(n: nat)
    requires n < 100
    ensures Pad02(n) == PadDigits(n, 2)
  {
    var high, low := n / 10, n % 10;
    assert high % 10 == high && n / 100 == 0;
    assert PadDigits(n, 2) == [DigitChar(high), DigitChar(low)];
    if n < 10 {
      assert high == 0 && low == n;
      assert DigitChar(0) == '0';
    } else {
      assert DecimalText(high) == [DigitChar(high)];
      assert DecimalText(n) == DecimalText(high) + [DigitChar(low)];
    }
  }

  /**
   * A duration of `s` seconds is shown as hours, minutes and seconds that read back, add
   * up to `s`, and keep minutes and seconds below 60 (for negative `s` the hours carry the
   * sign and the rest is counted forward, as Python's floor division does).
   */
  lemma DurationTextRoundTrip(s: int)
    ensures ParseDuration(DurationText(s)).Some?
    ensures var (h, m, sec) := ParseDuration(DurationText(s)).value;
            h * 3600 + m * 60 + sec == s && 0 <= m < 60 && 0 <= sec < 60
            && h == s / 3600
  {
    DurationFieldsParse(s);
    DurationArithmetic(s);
  }

  lemma DurationFieldsParse(s: int)
    ensures ParseDuration(DurationText(s)) == Some((s / 3600, s % 3600 / 60, s % 60))
  {
    var a, b, c := Pad02(s / 3600), Pad02(s % 3600 / 60), Pad02(s % 60);
    assert JoinWith([c], ':') == c;
    assert [a, b, c][1..] == [b, c] && [b, c][1..] == [c];
    assert JoinWith([b, c], ':') == b + [':'] + c;
    assert DurationText(s) == JoinWith([a, b, c], ':');
    SplitOnJoinWith([a, b, c], ':');
    Pad02RoundTrip(s / 3600);
    Pad02RoundTrip(s % 3600 / 60);
    Pad02RoundTrip(s % 60);
  }

  lemma DurationArithmetic(s: int)
    ensures s / 3600 * 3600 + s % 3600 / 60 * 60 + s % 60 == s
    ensures 0 <= s % 3600 / 60 < 60 && 0 <= s % 60 < 60
  {
    var q, r := s / 3600, s % 3600;
    var m, t := r / 60, r % 60;
    assert s == 60 * (60 * q + m) + t;
    DivModUnique(s, 60, 60 * q + m, t);
  }

  /** For a time of day, the duration rendering is the clock text `format_timestamp` uses. */
  lemma DurationTextOfDay(s: int)
    requires 0 <= s < SecondsPerDay
    ensures DurationText(s) == ClockText(s / 3600, s % 3600 / 60, s % 60)
  {
    Pad02Clock(s / 3600);
    Pad02Clock(s % 3600 / 60);
    Pad02Clock(s % 60);
  }

  // ---------------------------------------------------------------------------------------
  // format_for_frontend
  // ---------------------------------------------------------------------------------------

  /** A value in a result row as the database driver hands it over. */
  datatype Cell =
    | DateTimeCell(at: PyDateTime)
    | DateCell(day: PyDate)
    | DeltaCell(seconds: int)
    | TextCell(text: string)
    | NumberCell(number: real)
    | IntegerCell(integer: int)
    | NullCell

  predicate IsTemporal(c: Cell)
  {
    c.DateTimeCell? || c.DateCell? || c.DeltaCell?
  }

  /** The rendering of one value: dates, date-times and durations become text. */
  function FormatCell(c: Cell): (r: Cell)
    ensures !IsTemporal(c) ==> r == c
    ensures IsTemporal(c) ==> r.TextCell?
  {
    match c
    case DateTimeCell(t) => TextCell(DateTimeText(t))
    case DateCell(d) => TextCell(DateText(d))
    case DeltaCell(s) => TextCell(DurationText(s))
    case _ => c
  }

  /**
   * A rendered value loses nothing: a date-time or a date text reads back as the value
   * rendered, and a duration text as hours, minutes and seconds adding up to it.
   */
  lemma FormatCellReadsBack(c: Cell)
    ensures c.DateTimeCell? ==> ParseDateTimeText(FormatCell(c).text) == Some(c.at)
    ensures c.DateCell? ==> ParseDateText(FormatCell(c).text) == Some(c.day)
    ensures c.DeltaCell? ==> && ParseDuration(FormatCell(c).text).Some?
                             && var (h, m, s) := ParseDuration(FormatCell(c).text).value;
                                h * 3600 + m * 60 + s == c.seconds
  {
    match c
    case DateTimeCell(t) => DateTimeTextRoundTrip(t);
    case DateCell(d) => DateTextRoundTrip(d);
    case DeltaCell(s) => DurationTextRoundTrip(s);
    case _ =>
  }

  function FormatRow(row: map<string, Cell>): (r: map<string, Cell>)
    ensures r.Keys == row.Keys
    ensures forall k :: k in row ==> r[k] == FormatCell(row[k])
  {
    map k | k in row :: FormatCell(row[k])
  }

  /** Rendering is idempotent: a row rendered twice is the row rendered once. */
  lemma FormatRowIdempotent(row: map<string, Cell>)
    ensures FormatRow(FormatRow(row)) == FormatRow(row)
  {
    var once := FormatRow(row);
    forall k | k in once
      ensures FormatRow(once)[k] == once[k]
    {
      assert once[k] == FormatCell(row[k]);
    }
  }

  /** A mutable result row: Python's dict, updated in place. */
  class Row {
    var cells: map<string, Cell>

    constructor (cells: map<string, Cell>)
      ensures this.cells == cells
    {
      this.cells := cells;
    }

    /** The inner loop of `format_for_frontend`: renders every value of this row in place. */
    method Format()
      modifies this
      ensures cells == FormatRow(old(cells))
    {
      var todo := cells.Keys;
      ghost var original := cells;
      while todo != {}
        invariant todo <= original.Keys
        invariant cells.Keys == original.Keys
        invariant forall k :: k in original ==>
                    cells[k] == if k in todo then original[k] else FormatCell(original[k])
        decreases todo
      {
        var k :| k in todo;
        var v := cells[k];
        if IsTemporal(v) {
          cells := cells[k := FormatCell(v)];
        }
        todo := todo - {k};
      }
    }

    /** `dict.pop(key, None)`: the key is removed when present; nothing else changes. */
    method Pop(key: string)
      modifies this
      ensures cells == old(cells) - {key}
    {
      if key in cells {
        cells := cells - {key};
      } else {
        assert cells - {key} == cells;
      }
    }
  }

  /** The argument of `format_for_frontend`: `None`, one dict, or a list of dicts. */
  datatype FrontendData = NoData | SingleRow(row: Row) | RowList(rows: seq<Row>)

  function RowsOf(data: FrontendData): set<Row>
  {
    match data
    case NoData => {}
    case SingleRow(r) => {r}
    case RowList(rs) => set r | r in rs
  }

  /**
   * `format_for_frontend`: empty or missing data (including an empty dict) gives a fresh
   * empty list; a single dict is wrapped in a list; then every row is rendered in place.
   * A row listed twice is rendered twice, which rendering's idempotence makes harmless.
   */
  method FormatForFrontend(data: FrontendData) returns (out: seq<Row>)
    modifies RowsOf(data)
    ensures data.NoData? || data == RowList([]) || (data.SingleRow? && old(data.row.cells) == map[])
            ==> out == []
    ensures data.SingleRow? && old(data.row.cells) != map[] ==> out == [data.row]
    ensures data.RowList? && data.rows != [] ==> out == data.rows
    ensures forall r :: r in RowsOf(data) ==>
              r.cells == if r in out then FormatRow(old(r.cells)) else old(r.cells)
  {
    if data.NoData? || data == RowList([]) || (data.SingleRow? && data.row.cells == map[]) {
      return [];
    }
    out := if data.SingleRow? then [data.row] else data.rows;
    assert forall r :: r in out <==> r in RowsOf(data);
    FormatEach(out);
  }

  /** The outer loop of `format_for_frontend`: renders every listed row in place. */
  method FormatEach(rows: seq<Row>)
    modifies set r | r in rows
    ensures forall r :: r in rows ==> r.cells == FormatRow(old(r.cells))
  {
    var i := 0;
    while i < |rows|
      invariant 0 <= i <= |rows|
      invariant forall r :: r in rows ==>
                  r.cells == if r in rows[..i] then FormatRow(old(r.cells)) else old(r.cells)
    {
      var row := rows[i];
      row.Format();
      FormatRowIdempotent(old(row.cells));
      assert rows[..i + 1] == rows[..i] + [row];
      i := i + 1;
    }
    assert rows[..i] == rows;
  }

  // ---------------------------------------------------------------------------------------
  // is_allowed_file
  // ---------------------------------------------------------------------------------------

  const AllowedExtensions: set<string> := {"mp3", "wav", "ogg", "flac"}

  /**
   * True iff the name has a dot and the text after its last dot, lower-cased, is one of
   * the allowed audio extensions.
   */
  function IsAllowedFile(name: string): (ok: bool)
    ensures ok <==> exists i :: 0 <= i < |name| && name[i] == '.' && '.' !in name[i + 1..]
                                && Lower(name[i + 1..]) in AllowedExtensions
  {
    var k := LastIndexOf(name, '.');
    LastIndexOfMeaning(name, '.');
    if k == -1 then false
    else
      assert forall i :: 0 <= i < |name| && name[i] == '.' && '.' !in name[i + 1..] ==> i == k;
      Lower(name[k + 1..]) in AllowedExtensions
  }
}

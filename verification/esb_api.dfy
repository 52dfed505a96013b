/** The CSV-to-readings step of `ESBSmartMeter.get_usage_data` (esb_api.py):
    the payload header check, the empty-row filter, the conversion of each
    row into a reading, and the running `total_usage`.

    The rows are taken as already tokenised by `csv.DictReader`: a map from
    column name to cell. A row shorter than the header row gets `None` for
    its missing columns, which is the `Null` cell here. */
module EsbApi {
  import opened Wrappers
  import opened Chars
  import opened PyFloat

  datatype Cell = Text(text: string) | Null

  type Row = map<string, Cell>

  /** One `{date, usage, type}` record of the result. */
  datatype Reading = Reading(date: Cell, usage: real, kind: Cell)

  /** The result dictionary, without its `last_updated` clock stamp. */
  datatype UsageData = UsageData(totalUsage: real, readings: seq<Reading>)

  datatype FetchError =
    | InvalidCsvFormat   // the payload does not start with "MPRN"
    | RowTypeError       // float(None) on a short row escapes the per-row handler

  const DateColumn := "Read Date and End Time"
  const ValueColumn := "Read Value"
  const TypeColumn := "Read Type"

  /** `row.get(column, '')`. */
  function Lookup(row: Row, column: string): Cell {
    if column in row then row[column] else Text("")
  }

  /** `csv_file[0:4] == 'MPRN'`: a slice of a shorter payload is shorter than
      "MPRN" and so differs from it. */
  function HasMprnHeader(payload: string): (b: bool)
    ensures b ==> |payload| >= 4 && payload == "MPRN" + payload[4..]
    ensures |payload| < 4 ==> !b
  {
    |payload| >= 4 && payload[..4] == "MPRN"
  }

  /** Every payload that begins with "MPRN" passes the header check. */
  lemma {:induction false} MprnPrefixAccepted(rest: string)
    ensures HasMprnHeader("MPRN" + rest)
  {
    assert ("MPRN" + rest)[..4] == "MPRN";
  }

  /** `float(row.get('Read Value', 0))`, with a missing or non-numeric value as
      `None`: a missing column reads as 0. */
  function RowUsage(row: Row): Option<real> {
    if ValueColumn !in row then Some(0.0)
    else match row[ValueColumn]
      case Text(v) => ParseFloat(v)
      case Null => None
  }

  /** The reading a row converts to, or `None` when the row is skipped;
      `ConvertRowReadsValue` and `ColumnDefaults` state what it means. */
  function ConvertRow(row: Row): Option<Reading> {
    match RowUsage(row)
    case None => None
    case Some(u) => Some(Reading(Lookup(row, DateColumn), u, Lookup(row, TypeColumn)))
  }

  /** A row with a `Read Value` cell converts exactly when that cell is text
      `float()` accepts, and the reading's usage is that float. */
  lemma {:induction false} ConvertRowReadsValue(row: Row)
    requires ValueColumn in row
    ensures ConvertRow(row).Some? <==> row[ValueColumn].Text? && ParseFloat(row[ValueColumn].text).Some?
    ensures ConvertRow(row).Some? ==> ParseFloat(row[ValueColumn].text) == Some(ConvertRow(row).value.usage)
  {
  }

  /** Each column falls back to its own `row.get` default: a missing value
      reads as usage 0 whatever the other columns hold, and a converted row
      without a date or type column carries the empty string there. */
  lemma {:induction false} ColumnDefaults(row: Row)
    ensures ValueColumn !in row ==> ConvertRow(row) == Some(Reading(Lookup(row, DateColumn), 0.0, Lookup(row, TypeColumn)))
    ensures DateColumn !in row && ConvertRow(row).Some? ==> ConvertRow(row).value.date == Text("")
    ensures TypeColumn !in row && ConvertRow(row).Some? ==> ConvertRow(row).value.kind == Text("")
    ensures DateColumn in row && ConvertRow(row).Some? ==> ConvertRow(row).value.date == row[DateColumn]
    ensures TypeColumn in row && ConvertRow(row).Some? ==> ConvertRow(row).value.kind == row[TypeColumn]
  {
  }

  /** The rows kept by `if row:` (a dictionary is false when empty). */
  function NonEmptyRows(rows: seq<Row>): (kept: seq<Row>)
    ensures |kept| <= |rows|
    ensures forall j :: 0 <= j < |kept| ==> |kept[j]| > 0
  {
    if |rows| == 0 then []
    else
      var last := rows[|rows| - 1];
      var prefix := NonEmptyRows(rows[..|rows| - 1]);
      if |last| > 0 then prefix + [last] else prefix
  }

  /** The filter keeps exactly the non-empty rows. */
  lemma {:induction false} NonEmptyRowsMembers(rows: seq<Row>)
    ensures forall row :: row in NonEmptyRows(rows) <==> row in rows && |row| > 0
  {
    if |rows| > 0 {
      var n := |rows| - 1;
      NonEmptyRowsMembers(rows[..n]);
      assert rows == rows[..n] + [rows[n]];
    }
  }

  /** The readings the conversion loop emits for `rows`, in row order. */
  function Readings(rows: seq<Row>): (readings: seq<Reading>)
    ensures |readings| <= |rows|
  {
    if |rows| == 0 then []
    else
      var prefix := Readings(rows[..|rows| - 1]);
      match ConvertRow(rows[|rows| - 1])
      case Some(r) => prefix + [r]
      case None => prefix
  }

  /** The sum of the usages, added up in list order. */
  function SumUsage(readings: seq<Reading>): real {
    if |readings| == 0 then 0.0
    else SumUsage(readings[..|readings| - 1]) + readings[|readings| - 1].usage
  }

  /** The `if row:` loop that collects `my_json`. */
  method KeepNonEmpty(rows: seq<Row>) returns (kept: seq<Row>)
    ensures kept == NonEmptyRows(rows)
  {
    kept := [];
    for i := 0 to |rows|
      invariant kept == NonEmptyRows(rows[..i])
    {
      assert rows[..i + 1][..i] == rows[..i];
      if |rows[i]| > 0 {
        kept := kept + [rows[i]];
      }
    }
    assert rows[..|rows|] == rows;
  }

  /** The conversion loop: the readings emitted and their running total. */
  method ConvertAll(rows: seq<Row>) returns (totalUsage: real, readings: seq<Reading>)
    ensures readings == Readings(rows)
    ensures totalUsage == SumUsage(readings)
  {
    totalUsage := 0.0;
    readings := [];
    for i := 0 to |rows|
      invariant readings == Readings(rows[..i])
      invariant totalUsage == SumUsage(readings)
    {
      assert rows[..i + 1][..i] == rows[..i];
      var converted := ConvertRow(rows[i]);
      if converted.Some? {
        var reading := converted.value;
        assert (readings + [reading])[..|readings|] == readings;
        totalUsage := totalUsage + reading.usage;
        readings := readings + [reading];
      }
    }
    assert rows[..|rows|] == rows;
  }

  /** The payload-to-result step of `get_usage_data`. */
  method GetUsageData(payload: string, rows: seq<Row>) returns (r: Result<UsageData, FetchError>)
    ensures r.Err? <==> !HasMprnHeader(payload)
    ensures r.Err? ==> r.error == InvalidCsvFormat
    ensures r.Ok? ==> r.value.readings == Readings(NonEmptyRows(rows))
    ensures r.Ok? ==> r.value.totalUsage == SumUsage(r.value.readings)
  {
    if !HasMprnHeader(payload) {
      return Err(InvalidCsvFormat);
    }
    var myJson := KeepNonEmpty(rows);
    var totalUsage, readings := ConvertAll(myJson);
    return Ok(UsageData(totalUsage, readings));
  }

  /** Where each reading comes from: the indices of the converted rows, in
      increasing order, covering exactly the rows that convert. */
  function SourceIndices(rows: seq<Row>): (idx: seq<nat>)
    ensures |idx| == |Readings(rows)|
    ensures forall j :: 0 <= j < |idx| ==> idx[j] < |rows| && ConvertRow(rows[idx[j]]) == Some(Readings(rows)[j])
    ensures forall j, k :: 0 <= j < k < |idx| ==> idx[j] < idx[k]
  {
    if |rows| == 0 then []
    else
      var n := |rows| - 1;
      var prefix := SourceIndices(rows[..n]);
      assert forall i :: 0 <= i < n ==> rows[..n][i] == rows[i];
      if ConvertRow(rows[n]).Some? then prefix + [n] else prefix
  }

  /** The source indices are exactly the rows that convert: no converted row
      is missing from the readings. */
  lemma {:induction false} SourceIndicesCover(rows: seq<Row>)
    ensures forall i :: 0 <= i < |rows| ==> (i in SourceIndices(rows) <==> ConvertRow(rows[i]).Some?)
  {
    forall i | 0 <= i < |rows|
      ensures i in SourceIndices(rows) <==> ConvertRow(rows[i]).Some?
    {
      if ConvertRow(rows[i]).Some? {
        ConvertedRowIndexed(rows, i);
      }
    }
  }

  /** A row that converts has its index among the source indices. */
  lemma {:induction false} ConvertedRowIndexed(rows: seq<Row>, i: nat)
    requires i < |rows| && ConvertRow(rows[i]).Some?
    ensures i in SourceIndices(rows)
  {
    var n := |rows| - 1;
    if i < n {
      assert rows[..n][i] == rows[i];
      ConvertedRowIndexed(rows[..n], i);
    }
  }

  lemma {:induction false} ReadingsAppend(a: seq<Row>, b: seq<Row>)
    ensures Readings(a + b) == Readings(a) + Readings(b)
  {
    if |b| > 0 {
      var n := |b| - 1;
      assert (a + b)[..|a + b| - 1] == a + b[..n];
      ReadingsAppend(a, b[..n]);
    } else {
      assert a + b == a;
    }
  }

  /** A row whose value does not convert is dropped and the rows after it are
      still converted. */
  lemma {:induction false} SkippedRowKeepsRest(a: seq<Row>, bad: Row, b: seq<Row>)
    requires ConvertRow(bad).None?
    ensures Readings(a + [bad] + b) == Readings(a) + Readings(b)
  {
    ReadingsAppend(a + [bad], b);
    ReadingsAppend(a, [bad]);
    assert [bad][..0] == [];
  }

  /** A value that contains a character `float()` never accepts drops the row. */
  lemma {:induction false} NonNumericValueSkipped(row: Row, i: nat)
    requires ValueColumn in row && row[ValueColumn].Text?
    requires i < |row[ValueColumn].text| && !NumericChar(row[ValueColumn].text[i])
    ensures ConvertRow(row) == None
  {
  }

  /** A present value that converts is text made of number characters with
      at least one digit; a `None` value never converts. */
  lemma {:induction false} ConvertedValueIsNumeric(row: Row)
    requires ValueColumn in row
    ensures ConvertRow(row).Some? ==> row[ValueColumn].Text?
    ensures ConvertRow(row).Some? ==> AllNumeric(row[ValueColumn].text) && HasDigit(row[ValueColumn].text)
  {
  }

  /** Missing columns fall back to the defaults of `row.get`: no value reads
      as usage 0, no date or type as the empty string. */
  lemma {:induction false} MissingColumnsDefault(row: Row)
    requires DateColumn !in row && ValueColumn !in row && TypeColumn !in row
    ensures ConvertRow(row) == Some(Reading(Text(""), 0.0, Text("")))
  {
  }

  /** A value written as `n.f` (optionally with a minus sign) converts to the
      number it denotes. */
  lemma {:induction false} ConvertRowOfDecimal(row: Row, n: nat, f: string, negative: bool)
    requires AllDigits(f)
    requires ValueColumn in row
    requires row[ValueColumn] == Text(if negative then "-" + (NatToDigits(n) + "." + f) else NatToDigits(n) + "." + f)
    ensures ConvertRow(row).Some?
    ensures ConvertRow(row).value.usage == if negative then -(n as real + FracValue(f)) else n as real + FracValue(f)
  {
    if negative {
      ParseFloatOfNegativeFixedPoint(n, f);
    } else {
      ParseFloatOfFixedPoint(n, f);
    }
  }

  lemma {:induction false} NonEmptyRowsAppend(a: seq<Row>, b: seq<Row>)
    ensures NonEmptyRows(a + b) == NonEmptyRows(a) + NonEmptyRows(b)
  {
    if |b| > 0 {
      var n := |b| - 1;
      assert (a + b)[..|a + b| - 1] == a + b[..n];
      NonEmptyRowsAppend(a, b[..n]);
    } else {
      assert a + b == a;
    }
  }

  /** An empty row yields no reading, although converting it on its own would
      give a zero reading: the `if row:` filter is what drops it. */
  lemma {:induction false} EmptyRowIgnored(a: seq<Row>, b: seq<Row>)
    ensures NonEmptyRows(a + [map[]] + b) == NonEmptyRows(a + b)
    ensures ConvertRow(map[]) == Some(Reading(Text(""), 0.0, Text("")))
  {
    var empty: Row := map[];
    NonEmptyRowsAppend(a + [empty], b);
    NonEmptyRowsAppend(a, [empty]);
    NonEmptyRowsAppend(a, b);
    assert [empty][..0] == [];
  }

  lemma {:induction false} SumUsageAppend(a: seq<Reading>, b: seq<Reading>)
    ensures SumUsage(a + b) == SumUsage(a) + SumUsage(b)
  {
    if |b| > 0 {
      var n := |b| - 1;
      assert (a + b)[..|a + b| - 1] == a + b[..n];
      SumUsageAppend(a, b[..n]);
    } else {
      assert a + b == a;
    }
  }

  // The code as written: `float(None)` raises TypeError, which the per-row
  // `except (ValueError, KeyError)` does not catch, so one short row aborts
  // the whole fetch.

  datatype RowOutcome = Emitted(reading: Reading) | Skipped | Raised(error: FetchError)

  function ConvertRowAsWritten(row: Row): (o: RowOutcome)
    ensures o.Raised? <==> ValueColumn in row && row[ValueColumn].Null?
  {
    if ValueColumn in row && row[ValueColumn].Null? then Raised(RowTypeError)
    else match ConvertRow(row)
      case Some(r) => Emitted(r)
      case None => Skipped
  }

  function ReadingsAsWritten(rows: seq<Row>): (r: Result<seq<Reading>, FetchError>)
    ensures r.Err? ==> r.error == RowTypeError
    ensures r.Ok? ==> |r.value| <= |rows|
  {
    if |rows| == 0 then Ok([])
    else match ReadingsAsWritten(rows[..|rows| - 1])
      case Err(e) => Err(e)
      case Ok(prefix) =>
        match ConvertRowAsWritten(rows[|rows| - 1])
        case Emitted(r) => Ok(prefix + [r])
        case Skipped => Ok(prefix)
        case Raised(e) => Err(e)
  }

  predicate ShortValue(row: Row) {
    ValueColumn in row && row[ValueColumn].Null?
  }

  /** Without short rows the code as written and the corrected conversion
      agree. */
  lemma {:induction false} AsWrittenMatchesWithoutShortRows(rows: seq<Row>)
    requires forall i :: 0 <= i < |rows| ==> !ShortValue(rows[i])
    ensures ReadingsAsWritten(rows) == Ok(Readings(rows))
  {
    if |rows| > 0 {
      var n := |rows| - 1;
      assert forall i :: 0 <= i < n ==> rows[..n][i] == rows[i];
      AsWrittenMatchesWithoutShortRows(rows[..n]);
    }
  }

  /** With a short row anywhere, the code as written fails the whole fetch. */
  lemma {:induction false} AsWrittenFailsOnShortRow(rows: seq<Row>, k: nat)
    requires k < |rows| && ShortValue(rows[k])
    ensures ReadingsAsWritten(rows).Err?
  {
    var n := |rows| - 1;
    if k < n {
      assert rows[..n][k] == rows[k];
      AsWrittenFailsOnShortRow(rows[..n], k);
      assert ReadingsAsWritten(rows[..n]).Err?;
    } else {
      assert ConvertRowAsWritten(rows[n]).Raised?;
    }
  }

  /** A row from a line with fewer fields than the header, as
      `csv.DictReader` fills it in: its `Read Value` is `None`. */
  const ShortRow: Row := map[DateColumn := Text("01-01-2024 01:00"), ValueColumn := Null, TypeColumn := Null]

  /** A complete row followed by the short row: the code as written fails the
      fetch and loses the complete row's reading; the corrected conversion
      keeps that reading and drops only the short row. */
  lemma {:induction false} ShortRowAbortsFetch(complete: Row)
    requires ConvertRow(complete).Some?
    ensures ReadingsAsWritten([complete, ShortRow]) == Err(RowTypeError)
    ensures Readings([complete, ShortRow]) == [ConvertRow(complete).value]
  {
    var rows := [complete, ShortRow];
    assert ShortRow[ValueColumn] == Null;
    assert rows[..1] == [complete];
    assert [complete][..0] == [];
    assert ConvertRowAsWritten(complete) == Emitted(ConvertRow(complete).value);
    var one := [complete];
    assert one[..|one| - 1] == [] && one[|one| - 1] == complete;
    assert ReadingsAsWritten(one[..|one| - 1]) == Ok([]);
    assert [] + [ConvertRow(complete).value] == [ConvertRow(complete).value];
    assert ReadingsAsWritten([complete]) == Ok([ConvertRow(complete).value]);
  }
}

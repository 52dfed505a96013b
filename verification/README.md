# ESB smart-meter integration: a verified model of its two data transformations

The integration downloads a day-by-day CSV of half-hourly electricity
readings for one meter (identified by its MPRN, Meter Point Reference
Number) and imports them into the home-automation platform's long-term
statistics store as hourly energy statistics with a running sum. Apart from
the web login, it has two pure transformations. This project models both
in Dafny and proves what they promise:

1. **CSV rows to readings** (`ESBSmartMeter.get_usage_data`, the step after
   the payload is downloaded). A payload that does not begin with `MPRN` is
   rejected. Empty rows are dropped. Each row becomes a
   `{date, usage, type}` reading, and a row whose `Read Value` is not a
   number is skipped. `total_usage` is the sum of the emitted usages.
   Modules `EsbApi`, plus `PyFloat` for Python's `float()` on strings.
2. **Readings to hourly statistics**
   (`ESBDataUpdateCoordinator._async_import_statistics`). Each reading's
   `DD-MM-YYYY HH:MM` date is parsed and truncated to the hour. Usages are
   summed per hour and the hours are sorted. Hours at or before the last
   stored statistic are dropped, unless that statistic's sum is 0. The
   remaining hours become `{start, state, sum}` records whose `sum`
   continues from the stored sum. Modules `ReadDate` (the `strptime` format
   and the hour order) and `Sensor`. The grouping and emission lemmas hold
   for any `Bucketing`, that is, any map from a reading to its hour or to a
   parse error. `Sensor.ImportStatistics` instantiates it with `BucketOf`,
   the `strptime` parse truncated to the hour, and `BucketOf`'s own
   lemmas describe that map.

`Wrappers` holds `Option` and `Result`. `Chars` holds the digit and
whitespace helpers that both parsers share.

Modelling choices:
- A CSV row is a `map<string, Cell>`, as `csv.DictReader` yields it. A
  `Null` cell is the `None` that `DictReader` puts in the columns a short
  line lacks.
- Usages are exact `real`s.
- `float()` is modelled on ASCII text: surrounding whitespace, an optional
  sign, a decimal mantissa and an optional exponent. The whitespace it
  strips is tab, line feed, vertical tab, form feed, carriage return and
  space. The separator controls 0x1C-0x1F, which `\s` and `str.isspace`
  also count, are not stripped. `Chars.Spaces` names the two classes.
- `strptime(…, "%d-%m-%Y %H:%M")` is modelled by the regular expression the
  format compiles to. The day, month, hour and minute fields each take one
  or two digits within their ranges, and the day may also be a blank plus a
  digit. The year takes four digits. The blank in the format matches one or
  more whitespace characters. The whole text must match. After that, year 0
  and days that do not exist in their month are rejected.
- The statistics store is a parameter. The last stored statistic is an
  input (`Option<StoredStat>`), and the list passed to
  `async_add_external_statistics` is part of the result (`None` when the
  store is not called).

The model follows the code, with one exception: the short-row case in
"## Findings" below.

## Model

| member | source | states |
|---|---|---|
| `PyFloat.ParseFloat` | esb_api.py:218 | `float()` accepts only text made of digits, signs, a point, an exponent mark and whitespace, with at least one digit; anything else is `ValueError` |
| `PyFloat.ParseFloatOfNatToDigits` | esb_api.py:218 | a whole-number `Read Value` written as Python renders it, `str(n)`, reads back as n |
| `PyFloat.ParseFloatOfFixedPoint` | esb_api.py:218 | the text `n.f` reads back as the number n + f/10^\|f\| |
| `PyFloat.ParseFloatOfNegativeFixedPoint` | esb_api.py:218 | `-n.f` reads back as the negated number |
| `PyFloat.ParseFloatIgnoresPadding` | esb_api.py:218 | any run of the whitespace `float()` strips (tab, line feed, vertical tab, form feed, carriage return, space) on either side of the value does not change what it reads |
| `PyFloat.SeparatorIsNotFloatSpace` | esb_api.py:218-228 | a value led by one of the separator controls 0x1C-0x1F, which `\s` counts as whitespace but `float()` does not strip, is not a number, so its row is skipped |
| `EsbApi.HasMprnHeader` | esb_api.py:201-202 | a payload that passes the check is `MPRN` followed by the rest, and one shorter than four characters never passes |
| `EsbApi.MprnPrefixAccepted` | esb_api.py:201-202 | every payload that begins with `MPRN` passes the check, whatever follows |
| `EsbApi.GetUsageData` | esb_api.py:199-234 | an error exactly when the payload's first four characters are not `MPRN`; otherwise the readings are the conversions of the non-empty rows in order and `total_usage` is the sum of their usages |
| `EsbApi.KeepNonEmpty` | esb_api.py:205-209 | the `if row:` loop collects exactly the filtered rows, in order |
| `EsbApi.ConvertAll` | esb_api.py:212-228 | the conversion loop emits the readings of the rows that convert, in order, and its running total is their usage sum |
| `EsbApi.NonEmptyRows` | esb_api.py:205-209 | no kept row is empty, and never more rows than the input |
| `EsbApi.NonEmptyRowsMembers` | esb_api.py:205-209 | a row is kept exactly when it is in the input and non-empty |
| `EsbApi.EmptyRowIgnored` | esb_api.py:206-209 | inserting an empty row changes nothing, even though converting it alone would yield a zero reading |
| `EsbApi.Readings` | esb_api.py:215-225 | never more readings than rows |
| `EsbApi.SourceIndices` | esb_api.py:215-225 | each reading is the conversion of a source row, and the source indices strictly increase |
| `EsbApi.SourceIndicesCover` | esb_api.py:215-228 | a row has a reading exactly when it converts: no converted row is lost |
| `EsbApi.SkippedRowKeepsRest` | esb_api.py:216-228 | a row whose value does not convert is dropped and the rows after it are still converted |
| `EsbApi.NonNumericValueSkipped` | esb_api.py:218-228 | a `Read Value` holding a character `float()` never accepts makes the row produce no reading |
| `EsbApi.ConvertRowReadsValue` | esb_api.py:216-228 | a row with a `Read Value` cell yields a reading exactly when that cell is text `float()` accepts, and the reading's usage is that float (the missing-column defaults are stated by `ColumnDefaults`) |
| `EsbApi.ColumnDefaults` | esb_api.py:217-224 | each column falls back on its own: without `Read Value` the row converts with usage 0 whatever the other columns hold; a converted row without `Read Date and End Time` or `Read Type` carries `""` there, and one with them carries their cells unchanged |
| `EsbApi.ConvertedValueIsNumeric` | esb_api.py:218-228 | a present `Read Value` that converts is text (so a `None` value never converts) made of number characters with at least one digit |
| `EsbApi.MissingColumnsDefault` | esb_api.py:217-224 | a row without the three columns converts to date `""`, usage 0, type `""` |
| `EsbApi.ConvertRowOfDecimal` | esb_api.py:218-225 | a `Read Value` written `n.f` or `-n.f` converts to the number it denotes |
| `EsbApi.ReadingsAsWritten` | esb_api.py:215-228 | the loop as written fails only with the `TypeError` of a short row, and otherwise yields no more readings than rows |
| `EsbApi.ConvertRowAsWritten` | esb_api.py:216-228 | as written, the row raises exactly when its `Read Value` is `None` |
| `EsbApi.AsWrittenMatchesWithoutShortRows` | esb_api.py:215-228 | without short rows, the code as written gives the same readings as the corrected conversion |
| `EsbApi.AsWrittenFailsOnShortRow` | esb_api.py:215-228 | as written, one short row anywhere fails the whole conversion |
| `EsbApi.ShortRowAbortsFetch` | esb_api.py:215-228 | a complete row followed by a short row: as written, the fetch fails; corrected, the complete row's reading is kept |
| `ReadDate.ParseReadDate` | sensor.py:150 | every accepted date is a real calendar minute (year 1-9999, day within its month, hour 0-23, minute 0-59) |
| `ReadDate.ParseFormatRoundTrip` | sensor.py:148-150 | every time written as `DD-MM-YYYY HH:MM` parses back to itself |
| `ReadDate.BeforeIsStrictTotalOrder` | sensor.py:177 | the order of hour keys is irreflexive, transitive, total and asymmetric |
| `ReadDate.BeforeIsChronological` | sensor.py:177-179 | on valid hours, the key order agrees with the count of hours since year 1, the order in which `datetime`s compare |
| `Sensor.BucketOfCases` | sensor.py:143-158 | a reading has a bucket exactly when its date is text `strptime` accepts; the bucket is that date's hour, a valid calendar hour; the `if not reading_date_str` guard changes no outcome, since `strptime` rejects the empty string too |
| `Sensor.BucketIsHourOfDate` | sensor.py:148-153 | for dates written `DD-MM-YYYY HH:MM` with zero padding, a reading's bucket is its date with minutes zeroed, so two readings share a bucket exactly when they are in the same calendar hour (`BucketOfCases` states the general case for any text `strptime` accepts) |
| `Sensor.ValidKeepsAll` | sensor.py:139-170 | when as many readings are valid as there are readings, the valid readings are all of them |
| `Sensor.InvalidReadingCountsOneError` | sensor.py:143-170 | a reading the bucketing rejects (for `BucketOf`: a missing, empty or unparseable date) adds to no bucket and adds one to the error count |
| `Sensor.AddUsage` | sensor.py:163-166 | adding a usage updates only that hour's total (0 when new) and keeps the buckets sorted with one bucket per hour |
| `Sensor.Aggregate` | sensor.py:138-170 | buckets sorted by hour; their hours are exactly those of the valid readings; each bucket total is the sum of the valid usages in that hour; all totals sum to the total valid usage; parse errors plus valid readings equals all readings |
| `Sensor.Emit` | sensor.py:173-191 | the emitted (start, state) pairs are exactly the buckets that survive the cut-off, in order; each sum is the previous sum plus its state; emitted plus skipped equals the number of buckets |
| `Sensor.Resume` | sensor.py:118-133 | the running sum starts from the stored sum, 0 when there is no statistic or no sum entry; there is a cut-off exactly when that sum is nonzero, and it is the stored start |
| `Sensor.SkipsIsAtOrBefore` | sensor.py:179-181 | an hour is skipped exactly when there is a cut-off and the hour is at or before it (`reading_time <= last_time`) |
| `Sensor.KeptMembers` | sensor.py:177-181 | the loop keeps exactly the hours it does not skip |
| `Sensor.KeptIsSuffix` | sensor.py:177-181 | on sorted buckets the cut-off removes a prefix |
| `Sensor.RunningSums` | sensor.py:184-191 | the first sum is the start value plus its state, each later sum is the previous sum plus its state, and the last is the start value plus all states |
| `Sensor.ImportStatistics` | sensor.py:195-201 | the store is never handed an empty list |
| `Sensor.ImportIsOrdered` | sensor.py:177-191 | emitted statistics have strictly increasing starts |
| `Sensor.ImportHonoursCutoff` | sensor.py:118-181 | with a stored statistic of nonzero sum, exactly the hours strictly after its start are emitted; with none, or a zero sum, every hour that holds a valid reading is |
| `Sensor.ImportStatesAreHourTotals` | sensor.py:163-190 | each statistic's state is the total usage of the valid readings in its hour |
| `Sensor.ImportContinuesSum` | sensor.py:118-191 | the first sum is the stored sum (0 without one) plus its state, and each later sum adds its own state |
| `Sensor.ImportEndsAtStoredPlusStates` | sensor.py:118-191 | the final sum is the stored sum (0 without one) plus every emitted state |
| `Sensor.ImportCounts` | sensor.py:139-201 | emitted plus skipped equals the number of distinct valid hours, parse errors plus valid readings equals all readings, and the store is called exactly when something is emitted |
| `Sensor.FreshImportConservesUsage` | sensor.py:118-191 | with no resumable statistic nothing is skipped and the emitted states add up to the total valid usage |
| `Sensor.FreshImportMatchesTotalUsage` | sensor.py:173-191 | with no parse errors, a first import's final sum equals the `total_usage` of the fetched data |

## Left out

- The eight-request login and download chain (esb_api.py:44-196), with its cookies, random sleeps, HTML form scraping and JSON token extraction. This is network I/O against one website.
- The debug cache file (esb_api.py:33-41, 238-245) and the `last_updated` clock stamp (esb_api.py:235). These are filesystem and clock access. A cached result is not re-validated by the code, so it is outside the model too.
- `csv.DictReader` tokenisation and UTF-8 decoding. Rows come in already tokenised and the payload as a decoded string.
- Floating-point rounding. Usages and sums are exact reals, so the order of summation does not matter in the model. It can matter in the last bits of the source's floats.
- `PyFloat.ParseFloat`: `inf`, `nan` and `infinity`, digit-group underscores, and non-ASCII digits and whitespace are not accepted. Python accepts them. Real values cannot represent the first three, and the meter export does not use the others.
- `ReadDate.ParseReadDate`: non-ASCII digits and non-ASCII whitespace, which Python's `\d` and `\s` also match, are rejected.
- Time zones (sensor.py:123-124, 153): pytz localisation, daylight-saving gaps and overlaps, and converting the stored UTC start to local time. The stored start is taken as a local hour key, and hours are compared as local wall-clock hours.
- The `float(reading.get("usage", 0))` failure branch (sensor.py:160, 168-170). Usages reach the import as numbers produced by the conversion step, so this branch cannot be taken in the model.
- A stored statistic whose `sum` entry is present but `None`. The model's `StoredStat.sum` is `None` only when the entry is absent, which reads as 0.
- The Home Assistant plumbing: the coordinator, executor jobs, `StatisticMetaData`, the statistic id, logging, and the caller's "only import when there are readings" guard (sensor.py:79). Storage is modelled only as the import's input and output.
- config_flow.py. It is a framework form with a unique-ID check and no logic of its own.

## Findings

| source | as written | input that shows it | evidently intended | confidence | as-written member | corrected member |
|---|---|---|---|---|---|---|
| esb_api.py:218 | `float(row.get('Read Value', 0))` sits inside `except (ValueError, KeyError)`. `csv.DictReader` gives a line with fewer fields than the header `None` for its missing columns. `float(None)` raises `TypeError`, which that handler does not catch, so the whole fetch fails. | a complete row followed by a line with fewer fields than the header, so that its `Read Value` is `None` (`ShortRow`) | the short row is skipped like any other row whose value is not a number, and the other readings are kept | medium, not executed | `EsbApi.ShortRowAbortsFetch` (on `EsbApi.ReadingsAsWritten`) | `EsbApi.ConvertRowReadsValue` (on `EsbApi.ConvertRow`), with `EsbApi.SkippedRowKeepsRest` and `EsbApi.GetUsageData` |

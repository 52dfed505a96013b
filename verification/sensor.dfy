/** The statistics import of `ESBDataUpdateCoordinator._async_import_statistics`
    (sensor.py): resuming from the last stored statistic, grouping readings
    into hourly buckets, dropping buckets already stored, and emitting
    `{start, state, sum}` records with a running sum.

    The statistics store is a parameter: the last stored statistic comes in
    as an argument and the list handed to `async_add_external_statistics`
    comes out in the result.

    The grouping and the emission are stated for any `Bucketing`, the map
    from a reading to the hour it falls in (`None` for a parse error); the
    integration's is `BucketOf`, its `strptime` parse truncated to the hour,
    and `ImportStatistics` fixes it to that. */
module Sensor {
  import opened Wrappers
  import opened ReadDate
  import opened EsbApi

  /** One entry of `hourly_readings`: an hour and the usage summed into it. */
  datatype Bucket = Bucket(start: HourKey, total: real)

  /** The hourly buckets in `sorted(hourly_readings.keys())` order, and the
      `parse_errors` count. */
  datatype Hourly = Hourly(buckets: seq<Bucket>, parseErrors: nat)

  /** The last statistic `get_last_statistics` returns; `sum` is `None` when
      the record has no sum entry. Its start is taken as a local hour. */
  datatype StoredStat = StoredStat(start: HourKey, sum: Option<real>)

  /** One record handed to the statistics store. */
  datatype Statistic = Statistic(start: HourKey, state: real, sum: real)

  datatype Emission = Emission(statistics: seq<Statistic>, skipped: nat)

  /** `last_time` and `last_sum` after the stored statistic is read. */
  datatype Resumption = Resumption(cutoff: Option<HourKey>, lastSum: real)

  /** What the import hands to the store (`None`: the store is not called),
      and the two counters it logs. */
  datatype ImportResult = ImportResult(added: Option<seq<Statistic>>, skipped: nat, parseErrors: nat)

  // ----- Readings to hours -----

  /** Which hour a reading is added to, or `None` when it counts as a parse
      error. */
  type Bucketing = Reading -> Option<HourKey>

  /** The bucket a reading falls in, or `None` when it counts as a parse
      error: a missing or empty date, or one `strptime` rejects. */
  function BucketOf(r: Reading): Option<HourKey> {
    match r.date
    case Null => None
    case Text(s) =>
      if s == "" then None
      else match ParseReadDate(s)
        case None => None
        case Some(t) => Some(HourOf(t))
  }

  /** The readings that land in a bucket, in order. */
  function Valid(bucket: Bucketing, readings: seq<Reading>): (valid: seq<Reading>)
    ensures |valid| <= |readings|
  {
    if |readings| == 0 then []
    else
      var prefix := Valid(bucket, readings[..|readings| - 1]);
      var last := readings[|readings| - 1];
      if bucket(last).Some? then prefix + [last] else prefix
  }

  /** The hours that hold at least one valid reading. */
  function Hours(bucket: Bucketing, readings: seq<Reading>): set<HourKey> {
    if |readings| == 0 then {}
    else
      var prefix := Hours(bucket, readings[..|readings| - 1]);
      match bucket(readings[|readings| - 1])
      case Some(k) => prefix + {k}
      case None => prefix
  }

  /** The reference total of an hour: the usages of all valid readings that
      fall in it. */
  function UsageInHour(bucket: Bucketing, readings: seq<Reading>, k: HourKey): real {
    if |readings| == 0 then 0.0
    else
      var last := readings[|readings| - 1];
      UsageInHour(bucket, readings[..|readings| - 1], k) + (if bucket(last) == Some(k) then last.usage else 0.0)
  }

  // ----- Buckets -----

  predicate Sorted(bs: seq<Bucket>) {
    forall i, j :: 0 <= i < j < |bs| ==> Before(bs[i].start, bs[j].start)
  }

  function Starts(bs: seq<Bucket>): set<HourKey> {
    if |bs| == 0 then {} else {bs[0].start} + Starts(bs[1..])
  }

  /** Every bucket starts after `lo`. */
  predicate AllAfter(lo: HourKey, bs: seq<Bucket>) {
    forall j :: 0 <= j < |bs| ==> Before(lo, bs[j].start)
  }

  /** `hourly_readings.get(k, 0)`. */
  function TotalAt(bs: seq<Bucket>, k: HourKey): real {
    if |bs| == 0 then 0.0
    else if bs[0].start == k then bs[0].total
    else TotalAt(bs[1..], k)
  }

  function SumTotals(bs: seq<Bucket>): real {
    if |bs| == 0 then 0.0 else bs[0].total + SumTotals(bs[1..])
  }

  lemma {:induction false} AbsentBelowAll(bs: seq<Bucket>, k: HourKey)
    requires AllAfter(k, bs)
    ensures k !in Starts(bs) && TotalAt(bs, k) == 0.0
  {
    if |bs| > 0 {
      assert Before(k, bs[0].start);
      AbsentBelowAll(bs[1..], k);
    }
  }

  /** `hourly_readings[k] += usage`, or `= usage` for a new hour, on the
      buckets kept in key order. */
  function AddUsage(bs: seq<Bucket>, k: HourKey, u: real): (r: seq<Bucket>)
    requires Sorted(bs)
    ensures Sorted(r)
    ensures Starts(r) == Starts(bs) + {k}
    ensures TotalAt(r, k) == TotalAt(bs, k) + u
    ensures forall k' :: k' != k ==> TotalAt(r, k') == TotalAt(bs, k')
    ensures SumTotals(r) == SumTotals(bs) + u
    ensures forall lo :: Before(lo, k) && AllAfter(lo, bs) ==> AllAfter(lo, r)
  {
    if |bs| == 0 then
      [Bucket(k, u)]
    else if bs[0].start == k then
      var r := [Bucket(k, bs[0].total + u)] + bs[1..];
      assert r[1..] == bs[1..];
      r
    else if Before(k, bs[0].start) then
      var r := [Bucket(k, u)] + bs;
      assert r[1..] == bs;
      AbsentBelowAll(bs, k);
      r
    else
      var rest := AddUsage(bs[1..], k, u);
      var r := [bs[0]] + rest;
      assert r[1..] == rest;
      assert AllAfter(bs[0].start, bs[1..]);
      r
  }

  /** The hourly aggregation loop: every reading either lands in its hour's
      bucket or counts as one parse error. */
  function Aggregate(bucket: Bucketing, readings: seq<Reading>): (h: Hourly)
    ensures Sorted(h.buckets)
    ensures h.parseErrors + |Valid(bucket, readings)| == |readings|
    ensures Starts(h.buckets) == Hours(bucket, readings)
    ensures forall k :: TotalAt(h.buckets, k) == UsageInHour(bucket, readings, k)
    ensures SumTotals(h.buckets) == SumUsage(Valid(bucket, readings))
  {
    if |readings| == 0 then Hourly([], 0)
    else
      var prev := Aggregate(bucket, readings[..|readings| - 1]);
      var last := readings[|readings| - 1];
      match bucket(last)
      case None => Hourly(prev.buckets, prev.parseErrors + 1)
      case Some(k) =>
        var valid := Valid(bucket, readings[..|readings| - 1]);
        assert Valid(bucket, readings) == valid + [last];
        assert (valid + [last])[..|valid|] == valid;
        Hourly(AddUsage(prev.buckets, k, last.usage), prev.parseErrors)
  }

  // ----- Resuming from the store -----

  /** A previous statistic with a nonzero sum sets the cut-off; with no
      statistic, or a zero sum, there is none. */
  function Resume(last: Option<StoredStat>): (r: Resumption)
    ensures r.lastSum == (if last.Some? then last.value.sum.GetOr(0.0) else 0.0)
    ensures r.cutoff.Some? <==> r.lastSum != 0.0
    ensures r.cutoff.Some? ==> r.cutoff == Some(last.value.start)
  {
    match last
    case None => Resumption(None, 0.0)
    case Some(stat) =>
      var lastSum := stat.sum.GetOr(0.0);
      if lastSum == 0.0 then Resumption(None, lastSum) else Resumption(Some(stat.start), lastSum)
  }

  /** `last_time and reading_time <= last_time`. */
  predicate Skips(cutoff: Option<HourKey>, k: HourKey) {
    cutoff.Some? && !Before(cutoff.value, k)
  }

  /** The buckets that survive the cut-off, in order. */
  function Kept(bs: seq<Bucket>, cutoff: Option<HourKey>): (kept: seq<Bucket>)
    ensures |kept| <= |bs|
  {
    if |bs| == 0 then []
    else if Skips(cutoff, bs[0].start) then Kept(bs[1..], cutoff)
    else [bs[0]] + Kept(bs[1..], cutoff)
  }

  function SumStates(stats: seq<Statistic>): real {
    if |stats| == 0 then 0.0 else stats[0].state + SumStates(stats[1..])
  }

  /** The hour and usage of each statistic, as buckets. */
  function AsBuckets(stats: seq<Statistic>): (bs: seq<Bucket>)
    ensures |bs| == |stats|
    ensures forall j :: 0 <= j < |stats| ==> bs[j] == Bucket(stats[j].start, stats[j].state)
  {
    if |stats| == 0 then [] else [Bucket(stats[0].start, stats[0].state)] + AsBuckets(stats[1..])
  }

  /** Each `sum` is the previous one (starting from `running`) plus its own
      `state`. */
  predicate RunningFrom(running: real, stats: seq<Statistic>)
    decreases |stats|
  {
    |stats| == 0 || (stats[0].sum == running + stats[0].state && RunningFrom(stats[0].sum, stats[1..]))
  }

  /** The emission loop over the sorted buckets: skipped buckets only count;
      every other bucket adds its total to the running sum and emits a
      statistic carrying both. */
  function Emit(bs: seq<Bucket>, cutoff: Option<HourKey>, running: real): (e: Emission)
    ensures |e.statistics| + e.skipped == |bs|
    ensures AsBuckets(e.statistics) == Kept(bs, cutoff)
    ensures RunningFrom(running, e.statistics)
  {
    if |bs| == 0 then Emission([], 0)
    else if Skips(cutoff, bs[0].start) then
      var rest := Emit(bs[1..], cutoff, running);
      Emission(rest.statistics, rest.skipped + 1)
    else
      var sum := running + bs[0].total;
      var rest := Emit(bs[1..], cutoff, sum);
      var stats := [Statistic(bs[0].start, bs[0].total, sum)] + rest.statistics;
      assert stats[1..] == rest.statistics;
      Emission(stats, rest.skipped)
  }

  /** The import for a given bucketing: from the readings and the last stored
      statistic to the list handed to the store. */
  function ImportBy(bucket: Bucketing, readings: seq<Reading>, last: Option<StoredStat>): (r: ImportResult)
    ensures r.added != Some([])
  {
    var resume := Resume(last);
    var hourly := Aggregate(bucket, readings);
    var emission := Emit(hourly.buckets, resume.cutoff, resume.lastSum);
    ImportResult(if |emission.statistics| > 0 then Some(emission.statistics) else None,
                 emission.skipped, hourly.parseErrors)
  }

  /** The pure part of `_async_import_statistics`: readings are bucketed by
      their `strptime`-parsed date. */
  function ImportStatistics(readings: seq<Reading>, last: Option<StoredStat>): (r: ImportResult)
    ensures r.added != Some([])
  {
    ImportBy(BucketOf, readings, last)
  }

  /** The statistics an import hands to the store, or none. */
  function Added(r: ImportResult): seq<Statistic> {
    r.added.GetOr([])
  }

  // ----- Lemmas about the buckets and the emission -----

  lemma {:induction false} RunningSums(running: real, stats: seq<Statistic>)
    requires RunningFrom(running, stats)
    ensures |stats| > 0 ==> stats[0].sum == running + stats[0].state
    ensures forall j :: 0 < j < |stats| ==> stats[j].sum == stats[j - 1].sum + stats[j].state
    ensures |stats| > 0 ==> stats[|stats| - 1].sum == running + SumStates(stats)
    decreases |stats|
  {
    if |stats| > 0 {
      var tail := stats[1..];
      RunningSums(stats[0].sum, tail);
      forall j | 0 < j < |stats|
        ensures stats[j].sum == stats[j - 1].sum + stats[j].state
      {
        assert stats[j] == tail[j - 1];
        if j > 1 { assert stats[j - 1] == tail[j - 2]; }
      }
      if |tail| > 0 {
        assert stats[|stats| - 1] == tail[|tail| - 1];
      }
    }
  }

  lemma {:induction false} StartsMember(bs: seq<Bucket>, i: nat)
    requires i < |bs|
    ensures bs[i].start in Starts(bs)
  {
    if i > 0 {
      assert bs[i] == bs[1..][i - 1];
      StartsMember(bs[1..], i - 1);
    }
  }

  lemma {:induction false} TotalAtMember(bs: seq<Bucket>, i: nat)
    requires Sorted(bs) && i < |bs|
    ensures TotalAt(bs, bs[i].start) == bs[i].total
  {
    if i > 0 {
      assert Before(bs[0].start, bs[i].start);
      assert bs[i] == bs[1..][i - 1];
      TotalAtMember(bs[1..], i - 1);
    }
  }

  /** Sorted buckets have pairwise distinct hours, one bucket per hour. */
  lemma {:induction false} SortedStartsCount(bs: seq<Bucket>)
    requires Sorted(bs)
    ensures |Starts(bs)| == |bs|
  {
    if |bs| > 0 {
      assert AllAfter(bs[0].start, bs[1..]);
      AbsentBelowAll(bs[1..], bs[0].start);
      SortedStartsCount(bs[1..]);
    }
  }

  lemma {:induction false} KeptSorted(bs: seq<Bucket>, c: Option<HourKey>)
    requires Sorted(bs)
    ensures Sorted(Kept(bs, c))
    ensures forall lo :: AllAfter(lo, bs) ==> AllAfter(lo, Kept(bs, c))
  {
    if |bs| > 0 {
      var rest := Kept(bs[1..], c);
      KeptSorted(bs[1..], c);
      forall lo | AllAfter(lo, bs) ensures AllAfter(lo, bs[1..]) {
        assert forall j :: 0 <= j < |bs[1..]| ==> bs[1..][j] == bs[j + 1];
      }
      if !Skips(c, bs[0].start) {
        assert AllAfter(bs[0].start, bs[1..]);
        var kept := [bs[0]] + rest;
        assert forall j :: 0 < j < |kept| ==> kept[j] == rest[j - 1];
      }
    }
  }

  lemma {:induction false} StartsOfKept(bs: seq<Bucket>, c: Option<HourKey>)
    ensures forall k :: k in Starts(Kept(bs, c)) <==> k in Starts(bs) && !Skips(c, k)
  {
    if |bs| > 0 {
      StartsOfKept(bs[1..], c);
      if !Skips(c, bs[0].start) {
        assert ([bs[0]] + Kept(bs[1..], c))[1..] == Kept(bs[1..], c);
      }
    }
  }

  lemma {:induction false} KeptEverything(bs: seq<Bucket>, c: Option<HourKey>)
    requires forall j :: 0 <= j < |bs| ==> !Skips(c, bs[j].start)
    ensures Kept(bs, c) == bs
  {
    if |bs| > 0 {
      assert !Skips(c, bs[0].start);
      KeptEverything(bs[1..], c);
    }
  }

  /** On sorted buckets the cut-off drops a prefix: what is kept is a suffix. */
  lemma {:induction false} KeptIsSuffix(bs: seq<Bucket>, c: Option<HourKey>)
    requires Sorted(bs)
    ensures Kept(bs, c) == bs[|bs| - |Kept(bs, c)|..]
  {
    if |bs| > 0 {
      if Skips(c, bs[0].start) {
        KeptIsSuffix(bs[1..], c);
      } else {
        assert forall j :: 0 <= j < |bs| ==> !Skips(c, bs[j].start) by {
          forall j | 0 <= j < |bs| ensures !Skips(c, bs[j].start) {
            if j > 0 { assert Before(bs[0].start, bs[j].start); }
          }
        }
        KeptEverything(bs, c);
      }
    }
  }

  /** The cut-off keeps exactly the buckets it does not skip. */
  lemma {:induction false} KeptMembers(bs: seq<Bucket>, c: Option<HourKey>)
    ensures forall b :: b in Kept(bs, c) <==> b in bs && !Skips(c, b.start)
  {
    if |bs| > 0 {
      KeptMembers(bs[1..], c);
      assert bs == [bs[0]] + bs[1..];
    }
  }

  /** A bucket is skipped exactly when its hour is at or before the stored
      statistic's: `reading_time <= last_time` on the hour order. */
  lemma {:induction false} SkipsIsAtOrBefore(c: Option<HourKey>, k: HourKey)
    ensures Skips(c, k) <==> c.Some? && (k == c.value || Before(k, c.value))
  {
    if c.Some? {
      BeforeIsStrictTotalOrder(k, c.value, k);
    }
  }

  lemma {:induction false} SumTotalsOfAsBuckets(stats: seq<Statistic>)
    ensures SumTotals(AsBuckets(stats)) == SumStates(stats)
  {
    if |stats| > 0 {
      assert AsBuckets(stats)[1..] == AsBuckets(stats[1..]);
      SumTotalsOfAsBuckets(stats[1..]);
    }
  }

  // ----- Properties of the import -----

  /** Emitted statistics have strictly increasing start hours. */
  lemma {:induction false} ImportIsOrdered(bucket: Bucketing, readings: seq<Reading>, last: Option<StoredStat>)
    ensures var stats := Added(ImportBy(bucket, readings, last));
            forall i, j :: 0 <= i < j < |stats| ==> Before(stats[i].start, stats[j].start)
  {
    var bs := Aggregate(bucket, readings).buckets;
    var resume := Resume(last);
    KeptSorted(bs, resume.cutoff);
  }

  /** With a previous statistic whose sum is nonzero, exactly the hours
      strictly after its start are emitted; with none, or a zero sum, every
      hour that holds a valid reading is. */
  lemma {:induction false} ImportHonoursCutoff(bucket: Bucketing, readings: seq<Reading>, last: Option<StoredStat>)
    ensures var stats := Added(ImportBy(bucket, readings, last));
            var resumes := last.Some? && last.value.sum.GetOr(0.0) != 0.0;
            forall k :: k in Starts(AsBuckets(stats)) <==>
                          k in Hours(bucket, readings) && (!resumes || Before(last.value.start, k))
  {
    var bs := Aggregate(bucket, readings).buckets;
    StartsOfKept(bs, Resume(last).cutoff);
  }

  /** Each statistic's state is the total usage of the valid readings in its
      hour. */
  lemma {:induction false} ImportStatesAreHourTotals(bucket: Bucketing, readings: seq<Reading>, last: Option<StoredStat>)
    ensures var stats := Added(ImportBy(bucket, readings, last));
            forall j :: 0 <= j < |stats| ==>
              stats[j].start in Hours(bucket, readings) && stats[j].state == UsageInHour(bucket, readings, stats[j].start)
  {
    var bs := Aggregate(bucket, readings).buckets;
    var resume := Resume(last);
    var stats := Emit(bs, resume.cutoff, resume.lastSum).statistics;
    assert Added(ImportBy(bucket, readings, last)) == stats;
    var kept := Kept(bs, resume.cutoff);
    KeptIsSuffix(bs, resume.cutoff);
    forall j | 0 <= j < |stats|
      ensures stats[j].start in Hours(bucket, readings) && stats[j].state == UsageInHour(bucket, readings, stats[j].start)
    {
      var i := |bs| - |kept| + j;
      assert Bucket(stats[j].start, stats[j].state) == bs[i] by {
        assert AsBuckets(stats)[j] == kept[j];
      }
      StartsMember(bs, i);
      TotalAtMember(bs, i);
    }
  }

  /** The running sum resumes from the stored sum (0 without one), and each
      sum is the previous plus its own state. */
  lemma {:induction false} ImportContinuesSum(bucket: Bucketing, readings: seq<Reading>, last: Option<StoredStat>)
    ensures var stats := Added(ImportBy(bucket, readings, last));
            var base := if last.Some? then last.value.sum.GetOr(0.0) else 0.0;
            && (|stats| > 0 ==> stats[0].sum == base + stats[0].state)
            && (forall j :: 0 < j < |stats| ==> stats[j].sum == stats[j - 1].sum + stats[j].state)
  {
    var resume := Resume(last);
    var e := Emit(Aggregate(bucket, readings).buckets, resume.cutoff, resume.lastSum);
    RunningSums(resume.lastSum, e.statistics);
  }

  /** The last sum is the stored sum (0 without one) plus every emitted state. */
  lemma {:induction false} ImportEndsAtStoredPlusStates(bucket: Bucketing, readings: seq<Reading>, last: Option<StoredStat>)
    ensures var stats := Added(ImportBy(bucket, readings, last));
            var base := if last.Some? then last.value.sum.GetOr(0.0) else 0.0;
            |stats| > 0 ==> stats[|stats| - 1].sum == base + SumStates(stats)
  {
    var resume := Resume(last);
    var e := Emit(Aggregate(bucket, readings).buckets, resume.cutoff, resume.lastSum);
    RunningSums(resume.lastSum, e.statistics);
  }

  /** Every hour is either emitted or skipped, every reading either lands in
      an hour or is a parse error, and the store is called exactly when
      something is emitted. */
  lemma {:induction false} ImportCounts(bucket: Bucketing, readings: seq<Reading>, last: Option<StoredStat>)
    ensures var r := ImportBy(bucket, readings, last);
            && |Added(r)| + r.skipped == |Hours(bucket, readings)|
            && r.parseErrors + |Valid(bucket, readings)| == |readings|
            && (r.added.Some? <==> |Added(r)| > 0)
  {
    SortedStartsCount(Aggregate(bucket, readings).buckets);
  }

  /** Without a resumable previous statistic nothing is skipped, so the last
      sum is the stored sum (or 0) plus the usage of every valid reading. */
  lemma {:induction false} FreshImportConservesUsage(bucket: Bucketing, readings: seq<Reading>, last: Option<StoredStat>)
    requires last.None? || last.value.sum.GetOr(0.0) == 0.0
    ensures var r := ImportBy(bucket, readings, last);
            && r.skipped == 0
            && SumStates(Added(r)) == SumUsage(Valid(bucket, readings))
  {
    var bs := Aggregate(bucket, readings).buckets;
    var e := Emit(bs, None, Resume(last).lastSum);
    KeptEverything(bs, None);
    SumTotalsOfAsBuckets(e.statistics);
  }

  /** Readings stamped within the same hour share a bucket; readings in
      different hours do not. */
  lemma {:induction false} BucketIsHourOfDate(t1: LocalTime, t2: LocalTime, r1: Reading, r2: Reading)
    requires ValidTime(t1) && ValidTime(t2)
    requires r1.date == Text(FormatReadDate(t1)) && r2.date == Text(FormatReadDate(t2))
    ensures BucketOf(r1) == Some(HourKey(t1.year, t1.month, t1.day, t1.hour))
    ensures BucketOf(r1) == BucketOf(r2) <==>
              t1.year == t2.year && t1.month == t2.month && t1.day == t2.day && t1.hour == t2.hour
  {
    BucketOfFormatted(t1, r1);
    BucketOfFormatted(t2, r2);
  }

  lemma {:induction false} BucketOfFormatted(t: LocalTime, r: Reading)
    requires ValidTime(t) && r.date == Text(FormatReadDate(t))
    ensures BucketOf(r) == Some(HourOf(t))
  {
    ParseFormatRoundTrip(t);
  }

  /** A reading has a bucket exactly when its date is text `strptime`
      accepts, and the bucket is that date's hour, a valid hour. The
      `if not date_str` guard changes no outcome: `strptime` rejects the empty
      string as well. */
  lemma {:induction false} BucketOfCases(r: Reading)
    ensures BucketOf(r).Some? <==> r.date.Text? && ParseReadDate(r.date.text).Some?
    ensures BucketOf(r).Some? ==> BucketOf(r).value == HourOf(ParseReadDate(r.date.text).value)
    ensures BucketOf(r).Some? ==> ValidHour(BucketOf(r).value)
  {
    if r.date.Text? && r.date.text == "" {
      assert ParseReadDate(r.date.text).None?;
    }
  }

  /** A reading with no usable date adds to no bucket and to the error count
      once; the readings before it are aggregated as before. */
  lemma {:induction false} InvalidReadingCountsOneError(bucket: Bucketing, readings: seq<Reading>, bad: Reading)
    requires bucket(bad).None?
    ensures Aggregate(bucket, readings + [bad]).buckets == Aggregate(bucket, readings).buckets
    ensures Aggregate(bucket, readings + [bad]).parseErrors == Aggregate(bucket, readings).parseErrors + 1
  {
    assert (readings + [bad])[..|readings|] == readings;
  }

  /** When no reading is a parse error, every reading is valid. */
  lemma {:induction false} ValidKeepsAll(bucket: Bucketing, readings: seq<Reading>)
    requires |Valid(bucket, readings)| == |readings|
    ensures Valid(bucket, readings) == readings
  {
    if |readings| > 0 {
      var n := |readings| - 1;
      var prefix := readings[..n];
      assert bucket(readings[n]).Some?;
      ValidKeepsAll(bucket, prefix);
      assert readings == prefix + [readings[n]];
    }
  }

  /** When no reading is a parse error, a first import ends with a sum equal
      to the `total_usage` the meter API reported. */
  lemma {:induction false} FreshImportMatchesTotalUsage(bucket: Bucketing, data: UsageData)
    requires data.totalUsage == SumUsage(data.readings)
    requires ImportBy(bucket, data.readings, None).parseErrors == 0
    ensures var stats := Added(ImportBy(bucket, data.readings, None));
            |stats| > 0 ==> stats[|stats| - 1].sum == data.totalUsage
  {
    ValidKeepsAll(bucket, data.readings);
    FreshImportConservesUsage(bucket, data.readings, None);
    ImportEndsAtStoredPlusStates(bucket, data.readings, None);
  }
}

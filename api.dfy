/** The `/api/v1/trends` request: the cache lookup, the argument checks in
    the order the endpoint runs them, the filter they build, the readings
    the filter selects and the cache fill on a miss. The database is a
    value: the metrics catalogue and the joined climate readings. */
module Api {
  import opened Wrappers
  import opened PyText
  import opened Calendar
  import opened Quality
  import opened Validators
  import opened Config
  import opened Helpers
  import opened Trends

  // ---------------------------------------------------------------------
  // Arguments

  /** `request.args.get(name)`: the first value given for `name`. */
  function Arg(ps: seq<Param>, name: string): (r: Option<string>)
    ensures r.Some? <==> exists i :: 0 <= i < |ps| && ps[i].0 == name
    ensures r.Some? ==> exists i :: 0 <= i < |ps| && ps[i] == (name, r.value)
  {
    if |ps| == 0 then None
    else if ps[0].0 == name then Some(ps[0].1)
    else
      var r := Arg(ps[1..], name);
      assert forall i :: 0 <= i < |ps| - 1 ==> ps[1..][i] == ps[i + 1];
      r
  }

  /** The first pair named `name` gives the value. */
  lemma {:induction false} ArgAt(ps: seq<Param>, i: nat, name: string)
    requires i < |ps| && ps[i].0 == name
    requires forall j :: 0 <= j < i ==> ps[j].0 != name
    ensures Arg(ps, name) == Some(ps[i].1)
    decreases i
  {
    if i > 0 {
      assert ps[1..][i - 1] == ps[i];
      assert forall j :: 0 <= j < i - 1 ==> ps[1..][j] == ps[j + 1];
      ArgAt(ps[1..], i - 1, name);
    }
  }

  /** The truth of an argument in `if location_id and ...`: given and not
      empty. */
  predicate Given(a: Option<string>)
  {
    a.Some? && a.value != ""
  }

  // ---------------------------------------------------------------------
  // The database as a value

  /** One row of `climate_data` joined with its metric's `name`. */
  datatype Reading = Reading(locationId: int, metric: string, date: ValidDate, value: real, quality: string)

  /** `metrics` as `name -> unit` (a missing unit is `NULL`), and the joined
      climate readings in the order the table holds them. */
  datatype Database = Database(catalog: map<string, Option<string>>, readings: seq<Reading>)

  /** `SELECT COUNT(*) FROM metrics WHERE LOWER(name) = %s` is not zero. */
  predicate KnownMetric(catalog: map<string, Option<string>>, metric: string)
  {
    exists n :: n in catalog && Lower(n) == Lower(metric)
  }

  /** `{row[0]: row[1] for row in SELECT name, unit FROM metrics}`, so that
      `metric_units.get(name)` is `None` for a `NULL` unit as for a missing
      name. */
  function Units(catalog: map<string, Option<string>>): (units: map<string, string>)
    ensures forall n :: UnitOf(units, n) == (if n in catalog then catalog[n] else None)
  {
    map n | n in catalog && catalog[n].Some? :: catalog[n].value
  }

  // ---------------------------------------------------------------------
  // Validation

  const LocationMessage := "location_id must be a positive integer."
  const StartMessage := "start_date must be in YYYY-MM-DD format."
  const EndMessage := "end_date must be in YYYY-MM-DD format."
  const RangeMessage := "end_date must be greater than or equal to start_date."
  const ThresholdMessage := "Invalid quality_threshold value."
  const MetricMessage := "Invalid metric name."

  /** The `WHERE` clauses the arguments build: a location, a date range,
      a lower-cased metric name and the admitted quality tiers, each absent
      when its argument is. */
  datatype Filter = Filter(location: Option<int>, start: Option<Date>, end: Option<Date>,
                           metric: Option<string>, qualities: Option<seq<Quality>>)

  const NoFilter := Filter(None, None, None, None, None)

  datatype Validation = Rejected(message: string) | Accepted(filter: Filter)

  /** One of the endpoint's checks: whether the arguments pass it and the
      message of the 400 response when they do not. */
  datatype Check = Check(passes: bool, message: string)

  /** `not a or valid(a)`: an argument that is absent or empty is not
      checked. */
  predicate Passes(a: Option<string>, valid: PyValue -> bool)
  {
    match a
    case None => true
    case Some(v) => v == "" || valid(PyStr(v))
  }

  predicate LocationOk(ps: seq<Param>)
  {
    Passes(Arg(ps, "location_id"), IsValidInt)
  }

  predicate StartOk(ps: seq<Param>)
  {
    Passes(Arg(ps, "start_date"), IsValidDate)
  }

  predicate EndOk(ps: seq<Param>)
  {
    Passes(Arg(ps, "end_date"), IsValidDate)
  }

  /** `not (start_date and end_date) or is_valid_date_range(...)` */
  predicate RangeOk(ps: seq<Param>)
  {
    var start := Arg(ps, "start_date");
    var end := Arg(ps, "end_date");
    !(Given(start) && Given(end)) || IsValidDateRange(PyStr(start.value), PyStr(end.value))
  }

  predicate ThresholdOk(ps: seq<Param>)
  {
    var threshold := Arg(ps, "quality_threshold");
    !Given(threshold) || IsKnownThreshold(threshold.value)
  }

  predicate MetricOk(ps: seq<Param>, catalog: map<string, Option<string>>)
  {
    var metric := Arg(ps, "metric");
    !Given(metric) || KnownMetric(catalog, metric.value)
  }

  /** The six checks, in the order the endpoint makes them. */
  function Checks(ps: seq<Param>, catalog: map<string, Option<string>>): (cs: seq<Check>)
    ensures |cs| == 6
  {
    [ Check(LocationOk(ps), LocationMessage),
      Check(StartOk(ps), StartMessage),
      Check(EndOk(ps), EndMessage),
      Check(RangeOk(ps), RangeMessage),
      Check(ThresholdOk(ps), ThresholdMessage),
      Check(MetricOk(ps, catalog), MetricMessage) ]
  }

  predicate AllPass(cs: seq<Check>)
  {
    forall i :: 0 <= i < |cs| ==> cs[i].passes
  }

  /** The message of the first check that fails, if one does. */
  function FirstFailure(cs: seq<Check>): (r: Option<string>)
    ensures r.None? <==> AllPass(cs)
    ensures r.Some? ==> exists i :: 0 <= i < |cs| && !cs[i].passes && cs[i].message == r.value
                                   && AllPass(cs[..i])
  {
    if |cs| == 0 then None
    else if !cs[0].passes then
      assert AllPass(cs[..0]);
      Some(cs[0].message)
    else
      var r := FirstFailure(cs[1..]);
      assert forall i :: 0 <= i < |cs| - 1 ==> cs[1..][i] == cs[i + 1];
      assert forall i :: 0 <= i < |cs| - 1 ==> cs[..i + 1] == [cs[0]] + cs[1..][..i];
      r
  }

  /** The failing check with no failure before it is the one reported. */
  lemma {:induction false} FirstFailureAt(cs: seq<Check>, i: nat)
    requires i < |cs| && !cs[i].passes && AllPass(cs[..i])
    ensures FirstFailure(cs) == Some(cs[i].message)
    decreases i
  {
    if i > 0 {
      assert cs[..i][0] == cs[0];
      var rest := cs[1..];
      assert rest[i - 1] == cs[i];
      var before := rest[..i - 1];
      assert AllPass(before) by {
        forall k | 0 <= k < i - 1 ensures before[k].passes {
          assert before[k] == cs[..i][k + 1];
        }
      }
      FirstFailureAt(rest, i - 1);
    }
  }

  /** The argument checks of `get_trends` and the filter they leave. The
      first failing check decides the 400 message; when every check
      passes, each given argument becomes its clause. */
  function Validate(ps: seq<Param>, catalog: map<string, Option<string>>): (v: Validation)
    ensures v.Accepted? <==> AllPass(Checks(ps, catalog))
    ensures v.Rejected? ==> exists i :: 0 <= i < |Checks(ps, catalog)| && !Checks(ps, catalog)[i].passes
                                     && Checks(ps, catalog)[i].message == v.message && AllPass(Checks(ps, catalog)[..i])
  {
    var location := Arg(ps, "location_id");
    var start := Arg(ps, "start_date");
    var end := Arg(ps, "end_date");
    var metric := Arg(ps, "metric");
    var threshold := Arg(ps, "quality_threshold");
    match FirstFailure(Checks(ps, catalog))
    case Some(message) => Rejected(message)
    case None =>
      Accepted(Filter(
        if Given(location) then IntOfText(location.value) else None,
        if Given(start) then ParseDate(start.value) else None,
        if Given(end) then ParseDate(end.value) else None,
        if Given(metric) then Some(Lower(metric.value)) else None,
        if Given(threshold) then AllowedQualitiesAsWritten(threshold.value) else None))
  }

  /** What an accepted request filters on: a positive location, calendar
      dates in order, a metric the catalogue knows and, as the endpoint
      slices `QUALITY_VALUES`, the threshold tier with every worse one. */
  lemma AcceptedFilterIsValid(ps: seq<Param>, catalog: map<string, Option<string>>, t: Quality)
    requires Validate(ps, catalog).Accepted?
    ensures var f := Validate(ps, catalog).filter;
      && (f.location.Some? <==> Given(Arg(ps, "location_id")))
      && (f.location.Some? ==> f.location.value > 0 && IntOfText(Arg(ps, "location_id").value) == f.location)
      && (f.start.Some? <==> Given(Arg(ps, "start_date")))
      && (f.start.Some? ==> IsCalendarDate(f.start.value) && ParseDate(Arg(ps, "start_date").value) == f.start)
      && (f.end.Some? <==> Given(Arg(ps, "end_date")))
      && (f.end.Some? ==> IsCalendarDate(f.end.value) && ParseDate(Arg(ps, "end_date").value) == f.end)
      && (f.start.Some? && f.end.Some? ==> !Before(f.end.value, f.start.value))
      && (f.metric.Some? <==> Given(Arg(ps, "metric")))
      && (f.metric.Some? ==> exists n :: n in catalog && Lower(n) == f.metric.value)
    ensures var f := Validate(ps, catalog).filter;
      && (f.qualities.Some? <==> Given(Arg(ps, "quality_threshold")))
      && (f.qualities.Some? && Lower(Arg(ps, "quality_threshold").value) == Name(t) ==>
            forall q :: q in f.qualities.value <==> Rank(q) >= Rank(t))
  {
    var f := Validate(ps, catalog).filter;
    var location := Arg(ps, "location_id");
    var start := Arg(ps, "start_date");
    var end := Arg(ps, "end_date");
    var metric := Arg(ps, "metric");
    var threshold := Arg(ps, "quality_threshold");
    var cs := Checks(ps, catalog);
    assert f.location.Some? ==> f.location.value > 0 && IntOfText(location.value) == f.location by {
      assert cs[0].passes;
    }
    assert f.start.Some? ==> IsCalendarDate(f.start.value) && ParseDate(start.value) == f.start by {
      assert cs[1].passes;
    }
    assert f.end.Some? ==> IsCalendarDate(f.end.value) && ParseDate(end.value) == f.end by {
      assert cs[2].passes;
    }
    assert f.start.Some? && f.end.Some? ==> !Before(f.end.value, f.start.value) by {
      assert cs[3].passes;
    }
    assert f.metric.Some? ==> exists n :: n in catalog && Lower(n) == f.metric.value by {
      assert cs[5].passes;
    }
    assert f.qualities.Some? <==> Given(threshold) by {
      assert cs[4].passes;
    }
    if f.qualities.Some? && Lower(threshold.value) == Name(t) {
      AsWrittenAdmitsWorseTiers(threshold.value, t);
    }
  }

  /** A request without arguments, or whose arguments are all empty, is
      accepted and filters on nothing. */
  lemma BlankArgumentsFilterNothing(ps: seq<Param>, catalog: map<string, Option<string>>)
    requires forall i :: 0 <= i < |ps| ==> ps[i].1 == ""
    ensures Validate(ps, catalog) == Accepted(NoFilter)
    ensures Validate([], catalog) == Accepted(NoFilter)
  {
    var names := ["location_id", "start_date", "end_date", "metric", "quality_threshold"];
    forall k | k in names ensures !Given(Arg(ps, k)) {
      if Arg(ps, k).Some? {
        var i :| 0 <= i < |ps| && ps[i] == (k, Arg(ps, k).value);
      }
    }
  }

  /** Each check is reported when it fails and every check before it
      passes, whatever the later ones say: a bad `location_id` is reported
      before anything else, a reversed range before an unknown threshold. */
  lemma LocationReported(ps: seq<Param>, catalog: map<string, Option<string>>)
    requires !LocationOk(ps)
    ensures Validate(ps, catalog) == Rejected(LocationMessage)
  {
    ReportsCheck(ps, catalog, 0);
  }

  lemma StartReported(ps: seq<Param>, catalog: map<string, Option<string>>)
    requires LocationOk(ps) && !StartOk(ps)
    ensures Validate(ps, catalog) == Rejected(StartMessage)
  {
    ReportsCheck(ps, catalog, 1);
  }

  lemma EndReported(ps: seq<Param>, catalog: map<string, Option<string>>)
    requires LocationOk(ps) && StartOk(ps) && !EndOk(ps)
    ensures Validate(ps, catalog) == Rejected(EndMessage)
  {
    ReportsCheck(ps, catalog, 2);
  }

  lemma RangeReported(ps: seq<Param>, catalog: map<string, Option<string>>)
    requires LocationOk(ps) && StartOk(ps) && EndOk(ps) && !RangeOk(ps)
    ensures Validate(ps, catalog) == Rejected(RangeMessage)
  {
    ReportsCheck(ps, catalog, 3);
  }

  lemma ThresholdReported(ps: seq<Param>, catalog: map<string, Option<string>>)
    requires LocationOk(ps) && StartOk(ps) && EndOk(ps) && RangeOk(ps) && !ThresholdOk(ps)
    ensures Validate(ps, catalog) == Rejected(ThresholdMessage)
  {
    ReportsCheck(ps, catalog, 4);
  }

  lemma MetricReported(ps: seq<Param>, catalog: map<string, Option<string>>)
    requires LocationOk(ps) && StartOk(ps) && EndOk(ps) && RangeOk(ps) && ThresholdOk(ps) && !MetricOk(ps, catalog)
    ensures Validate(ps, catalog) == Rejected(MetricMessage)
  {
    ReportsCheck(ps, catalog, 5);
  }

  /** A request passing all six checks is accepted. */
  lemma PassingRequestAccepted(ps: seq<Param>, catalog: map<string, Option<string>>)
    requires LocationOk(ps) && StartOk(ps) && EndOk(ps) && RangeOk(ps) && ThresholdOk(ps) && MetricOk(ps, catalog)
    ensures Validate(ps, catalog).Accepted?
  {
    var cs := Checks(ps, catalog);
    assert cs[0].passes && cs[1].passes && cs[2].passes && cs[3].passes && cs[4].passes && cs[5].passes;
  }

  /** The validation reported is the first one that fails. */
  lemma ReportsCheck(ps: seq<Param>, catalog: map<string, Option<string>>, k: nat)
    requires k < 6 && !Checks(ps, catalog)[k].passes
    requires forall j :: 0 <= j < k ==> Checks(ps, catalog)[j].passes
    ensures Validate(ps, catalog) == Rejected(Checks(ps, catalog)[k].message)
  {
    var cs := Checks(ps, catalog);
    assert AllPass(cs[..k]) by {
      forall j | 0 <= j < k ensures cs[..k][j].passes {
        assert cs[..k][j] == cs[j];
      }
    }
    FirstFailureAt(cs, k);
  }

  /** Two dates the wrong way round fail the range check. */
  lemma ReversedRangeFails(ps: seq<Param>)
    requires Given(Arg(ps, "start_date")) && Given(Arg(ps, "end_date"))
    requires ParseDate(Arg(ps, "start_date").value).Some? && ParseDate(Arg(ps, "end_date").value).Some?
    requires Before(ParseDate(Arg(ps, "end_date").value).value, ParseDate(Arg(ps, "start_date").value).value)
    ensures StartOk(ps) && EndOk(ps) && !RangeOk(ps)
  {
  }

  /** `?location_id=-1` is answered with the location message, whatever
      else the catalogue holds. */
  lemma NegativeLocationRejected(catalog: map<string, Option<string>>)
    ensures Validate([("location_id", "-1")], catalog) == Rejected(LocationMessage)
  {
    IsValidIntExamples();
  }

  /** The five argument names are distinct. */
  lemma ArgumentNamesDiffer()
    ensures "location_id" != "start_date" && "location_id" != "end_date" && "location_id" != "metric"
    ensures "location_id" != "quality_threshold" && "start_date" != "end_date" && "start_date" != "metric"
    ensures "start_date" != "quality_threshold" && "end_date" != "metric" && "end_date" != "quality_threshold"
    ensures "metric" != "quality_threshold"
  {
    assert "location_id"[0] == 'l' && "start_date"[0] == 's' && "end_date"[0] == 'e';
    assert "metric"[0] == 'm' && "quality_threshold"[0] == 'q';
  }

  /** `?location_id=1` is accepted and filters on location 1 only. */
  lemma LocationOneAccepted(catalog: map<string, Option<string>>)
    ensures Validate([("location_id", "1")], catalog) == Accepted(Filter(Some(1), None, None, None, None))
  {
    var ps := [("location_id", "1")];
    LocationOneArgs(catalog);
    PassingRequestAccepted(ps, catalog);
    AcceptedWithLocationOnly(ps, catalog, 1);
  }

  /** An accepted request whose only given argument is a location reading
      as `n` filters on location `n` alone. */
  lemma AcceptedWithLocationOnly(ps: seq<Param>, catalog: map<string, Option<string>>, n: int)
    requires Validate(ps, catalog).Accepted?
    requires Given(Arg(ps, "location_id")) && IntOfText(Arg(ps, "location_id").value) == Some(n)
    requires !Given(Arg(ps, "start_date")) && !Given(Arg(ps, "end_date"))
    requires !Given(Arg(ps, "metric")) && !Given(Arg(ps, "quality_threshold"))
    ensures Validate(ps, catalog) == Accepted(Filter(Some(n), None, None, None, None))
  {
  }

  /** The arguments of `?location_id=1` and the checks they pass. */
  lemma LocationOneArgs(catalog: map<string, Option<string>>)
    ensures var ps := [("location_id", "1")];
      && Arg(ps, "location_id") == Some("1") && IntOfText("1") == Some(1)
      && !Given(Arg(ps, "start_date")) && !Given(Arg(ps, "end_date"))
      && !Given(Arg(ps, "metric")) && !Given(Arg(ps, "quality_threshold"))
      && LocationOk(ps) && StartOk(ps) && EndOk(ps) && RangeOk(ps) && ThresholdOk(ps) && MetricOk(ps, catalog)
  {
    var ps := [("location_id", "1")];
    assert Arg(ps, "location_id") == Some("1") by { ArgAt(ps, 0, "location_id"); }
    assert Arg(ps, "start_date") == None && Arg(ps, "end_date") == None
        && Arg(ps, "metric") == None && Arg(ps, "quality_threshold") == None by { ArgumentNamesDiffer(); }
    assert IntOfText("1") == Some(1) && IsValidInt(PyStr("1")) by { ReadsOne(); }
    assert LocationOk(ps) by { assert Passes(Some("1"), IsValidInt); }
  }

  /** The endpoint's own test requests beside `location_id=1`: an unknown
      metric, an unknown threshold, a month 99 and a reversed range are each
      rejected with their own check's message. */
  lemma UnknownMetricTest(catalog: map<string, Option<string>>)
    requires !KnownMetric(catalog, "invalid_metric")
    ensures Validate([("location_id", "1"), ("metric", "invalid_metric")], catalog) == Rejected(MetricMessage)
  {
    var ps := [("location_id", "1"), ("metric", "invalid_metric")];
    assert Arg(ps, "location_id") == Some("1") by { ArgAt(ps, 0, "location_id"); }
    assert Arg(ps, "metric") == Some("invalid_metric") by { ArgumentNamesDiffer(); ArgAt(ps, 1, "metric"); }
    assert Arg(ps, "start_date") == None && Arg(ps, "end_date") == None
        && Arg(ps, "quality_threshold") == None by { ArgumentNamesDiffer(); }
    assert LocationOk(ps) by { IsValidIntExamples(); }
    MetricReported(ps, catalog);
  }

  lemma UnknownThresholdTest(catalog: map<string, Option<string>>)
    ensures Validate([("location_id", "1"), ("quality_threshold", "badquality")], catalog) == Rejected(ThresholdMessage)
  {
    var ps := [("location_id", "1"), ("quality_threshold", "badquality")];
    assert Arg(ps, "location_id") == Some("1") by { ArgAt(ps, 0, "location_id"); }
    assert Arg(ps, "quality_threshold") == Some("badquality") by {
      ArgumentNamesDiffer();
      ArgAt(ps, 1, "quality_threshold");
    }
    assert Arg(ps, "start_date") == None && Arg(ps, "end_date") == None by { ArgumentNamesDiffer(); }
    assert LocationOk(ps) by { IsValidIntExamples(); }
    assert !ThresholdOk(ps) by { ThresholdExtremes(); }
    ThresholdReported(ps, catalog);
  }

  lemma BadStartDateTest(catalog: map<string, Option<string>>)
    ensures Validate([("location_id", "1"), ("start_date", "2025-99-99")], catalog) == Rejected(StartMessage)
  {
    var ps := [("location_id", "1"), ("start_date", "2025-99-99")];
    assert Arg(ps, "location_id") == Some("1") by { ArgAt(ps, 0, "location_id"); }
    assert Arg(ps, "start_date") == Some("2025-99-99") by { ArgumentNamesDiffer(); ArgAt(ps, 1, "start_date"); }
    assert LocationOk(ps) by { IsValidIntExamples(); }
    assert !StartOk(ps) by { NoMonthNinetyNine(); }
    StartReported(ps, catalog);
  }

  lemma TestDates()
    ensures Format(Date(2025, 4, 15)) == "2025-04-15" && Format(Date(2025, 1, 1)) == "2025-01-01"
  {
    FormatChars(Date(2025, 4, 15));
    FormatChars(Date(2025, 1, 1));
  }

  lemma ReversedRangeTest(catalog: map<string, Option<string>>)
    ensures Validate([("location_id", "1"), ("start_date", "2025-04-15"), ("end_date", "2025-01-01")], catalog)
         == Rejected(RangeMessage)
  {
    var ps := [("location_id", "1"), ("start_date", "2025-04-15"), ("end_date", "2025-01-01")];
    assert Arg(ps, "location_id") == Some("1") by { ArgAt(ps, 0, "location_id"); }
    assert Arg(ps, "start_date") == Some("2025-04-15") by { ArgumentNamesDiffer(); ArgAt(ps, 1, "start_date"); }
    assert Arg(ps, "end_date") == Some("2025-01-01") by { ArgumentNamesDiffer(); ArgAt(ps, 2, "end_date"); }
    assert LocationOk(ps) by { IsValidIntExamples(); }
    assert ParseDate("2025-04-15") == Some(Date(2025, 4, 15)) && ParseDate("2025-01-01") == Some(Date(2025, 1, 1)) by {
      TestDates();
      FormatReadsBack(Date(2025, 4, 15));
      FormatReadsBack(Date(2025, 1, 1));
    }
    ReversedRangeFails(ps);
    RangeReported(ps, catalog);
  }

  // ---------------------------------------------------------------------
  // The query

  /** A reading the `WHERE` clauses keep. `LOWER(c.quality) IN (...)` admits
      the lower-cased names of the admitted tiers. */
  predicate Matches(f: Filter, r: Reading)
  {
    && (f.location.Some? ==> r.locationId == f.location.value)
    && (f.start.Some? ==> !Before(r.date, f.start.value))
    && (f.end.Some? ==> !Before(f.end.value, r.date))
    && (f.metric.Some? ==> Lower(r.metric) == f.metric.value)
    && (f.qualities.Some? ==> Lower(r.quality) in LowerNames(f.qualities.value))
  }

  function RowOf(r: Reading): Row
  {
    Row(r.metric, r.date, r.value, r.quality)
  }

  /** The rows of the climate query: the matching readings, as
      `(metric, date, value, quality)`, in table order. */
  function Query(readings: seq<Reading>, f: Filter): (rows: seq<Row>)
    ensures |rows| <= |readings|
    decreases |readings|
  {
    if |readings| == 0 then []
    else
      var last := readings[|readings| - 1];
      Query(readings[..|readings| - 1], f) + (if Matches(f, last) then [RowOf(last)] else [])
  }

  /** The positions of the readings the filter keeps, in table order. */
  function Kept(readings: seq<Reading>, f: Filter): (idx: seq<nat>)
    ensures forall k :: 0 <= k < |idx| ==> idx[k] < |readings|
    decreases |readings|
  {
    if |readings| == 0 then []
    else Kept(readings[..|readings| - 1], f) + (if Matches(f, readings[|readings| - 1]) then [|readings| - 1] else [])
  }

  /** `Kept` selects exactly the positions of the matching readings, in
      increasing order. */
  lemma {:induction false} KeptSelect(readings: seq<Reading>, f: Filter)
    ensures forall j, k :: 0 <= j < k < |Kept(readings, f)| ==> Kept(readings, f)[j] < Kept(readings, f)[k]
    ensures forall i :: 0 <= i < |readings| ==> (i in Kept(readings, f) <==> Matches(f, readings[i]))
    decreases |readings|
  {
    if |readings| > 0 {
      var n := |readings| - 1;
      var init := readings[..n];
      KeptSelect(init, f);
      var p := Kept(init, f);
      assert forall k :: 0 <= k < |p| ==> p[k] < n;
      forall i | 0 <= i < |readings| ensures i in Kept(readings, f) <==> Matches(f, readings[i]) {
        if i < n {
          assert readings[i] == init[i];
          assert i in Kept(readings, f) <==> i in p;
        }
      }
    }
  }

  /** The query is exactly the rows of the readings the filter keeps, each
      once, in table order: its `k`-th row is that of the `k`-th kept
      position, the kept positions strictly increase, and a position is kept
      exactly when its reading matches. */
  lemma {:induction false} QueryIsKeptRows(readings: seq<Reading>, f: Filter)
    ensures |Query(readings, f)| == |Kept(readings, f)|
    ensures forall k :: 0 <= k < |Kept(readings, f)| ==> Query(readings, f)[k] == RowOf(readings[Kept(readings, f)[k]])
    ensures forall j, k :: 0 <= j < k < |Kept(readings, f)| ==> Kept(readings, f)[j] < Kept(readings, f)[k]
    ensures forall i :: 0 <= i < |readings| ==> (i in Kept(readings, f) <==> Matches(f, readings[i]))
    decreases |readings|
  {
    KeptSelect(readings, f);
    if |readings| > 0 {
      var n := |readings| - 1;
      var init := readings[..n];
      QueryIsKeptRows(init, f);
      var p := Kept(init, f);
      var idx := Kept(readings, f);
      var q := Query(readings, f);
      forall k | 0 <= k < |p| ensures q[k] == RowOf(readings[idx[k]]) {
        assert q[k] == Query(init, f)[k] && idx[k] == p[k];
        assert readings[p[k]] == init[p[k]];
      }
    }
  }

  /** `row` is the row of a reading the filter keeps. */
  predicate Selected(readings: seq<Reading>, f: Filter, row: Row)
  {
    exists i :: 0 <= i < |readings| && Matches(f, readings[i]) && RowOf(readings[i]) == row
  }

  /** Every row of the query comes from a reading the filter keeps. */
  lemma {:induction false} QuerySound(readings: seq<Reading>, f: Filter)
    ensures forall k :: 0 <= k < |Query(readings, f)| ==> Selected(readings, f, Query(readings, f)[k])
    decreases |readings|
  {
    if |readings| > 0 {
      var n := |readings| - 1;
      var init := readings[..n];
      QuerySound(init, f);
      var q := Query(readings, f);
      forall k | 0 <= k < |q| ensures Selected(readings, f, q[k]) {
        if k < |Query(init, f)| {
          assert q[k] == Query(init, f)[k];
          var i :| 0 <= i < |init| && Matches(f, init[i]) && RowOf(init[i]) == q[k];
          assert readings[i] == init[i];
        } else {
          assert q[k] == RowOf(readings[n]);
        }
      }
    }
  }

  /** Every reading the filter keeps is a row of the query. */
  lemma {:induction false} QueryComplete(readings: seq<Reading>, f: Filter)
    ensures forall i :: 0 <= i < |readings| && Matches(f, readings[i]) ==> RowOf(readings[i]) in Query(readings, f)
    decreases |readings|
  {
    if |readings| > 0 {
      var n := |readings| - 1;
      var init := readings[..n];
      QueryComplete(init, f);
      forall i | 0 <= i < |readings| && Matches(f, readings[i]) ensures RowOf(readings[i]) in Query(readings, f) {
        if i < n {
          assert readings[i] == init[i];
        }
      }
    }
  }

  predicate ReadingsInDateOrder(readings: seq<Reading>)
  {
    forall i, j :: 0 <= i < j < |readings| ==> !Before(readings[j].date, readings[i].date)
  }

  /** A table held in date order gives the rows in date order, as
      `ORDER BY c.date ASC` delivers them. */
  lemma {:induction false} QueryKeepsDateOrder(readings: seq<Reading>, f: Filter)
    requires ReadingsInDateOrder(readings)
    ensures RowsInDateOrder(Query(readings, f))
    decreases |readings|
  {
    if |readings| > 0 {
      var n := |readings| - 1;
      var init := readings[..n];
      assert ReadingsInDateOrder(init) by {
        forall i, j | 0 <= i < j < |init| ensures !Before(init[j].date, init[i].date) {
          assert init[i] == readings[i] && init[j] == readings[j];
        }
      }
      QueryKeepsDateOrder(init, f);
      QuerySound(init, f);
      var p := Query(init, f);
      var q := Query(readings, f);
      forall i, j | 0 <= i < j < |q| ensures !Before(q[j].date, q[i].date) {
        if j < |p| {
          assert q[i] == p[i] && q[j] == p[j];
        } else {
          assert q[i] == p[i];
          var k :| 0 <= k < |init| && Matches(f, init[k]) && RowOf(init[k]) == p[i];
          assert init[k] == readings[k];
          assert q[j] == RowOf(readings[n]);
        }
      }
    }
  }

  /** With a quality threshold, every row the query returns has the
      threshold tier or a worse one: the selection as the endpoint writes
      it. */
  lemma RowsMeetThreshold(ps: seq<Param>, db: Database, t: Quality, row: Row)
    requires Validate(ps, db.catalog).Accepted?
    requires Given(Arg(ps, "quality_threshold")) && Lower(Arg(ps, "quality_threshold").value) == Name(t)
    requires row in Query(db.readings, Validate(ps, db.catalog).filter)
    ensures exists q :: Rank(q) >= Rank(t) && Lower(row.quality) == Name(q)
  {
    var f := Validate(ps, db.catalog).filter;
    QuerySound(db.readings, f);
    var k :| 0 <= k < |Query(db.readings, f)| && Query(db.readings, f)[k] == row;
    var i :| 0 <= i < |db.readings| && Matches(f, db.readings[i]) && RowOf(db.readings[i]) == row;
    AcceptedFilterIsValid(ps, db.catalog, t);
    var qs := f.qualities.value;
    var j :| 0 <= j < |qs| && LowerNames(qs)[j] == Lower(row.quality);
    LowerOfName(qs[j]);
    assert qs[j] in qs;
  }

  // ---------------------------------------------------------------------
  // The response

  /** `trends_data`: one analysis per metric that has rows. */
  function TrendsOf(rows: seq<Row>, units: map<string, string>): (t: map<string, MetricTrend>)
    ensures forall m :: m in t <==> HasMetric(rows, m)
    ensures forall m :: m in t ==> t[m] == Analysis(SeriesOf(rows, m), UnitOf(units, m))
  {
    map m | m in (set i | 0 <= i < |rows| :: rows[i].metric) :: Analysis(SeriesOf(rows, m), UnitOf(units, m))
  }

  datatype Body = Error(error: string) | Data(data: map<string, MetricTrend>)

  datatype Response = Response(body: Body, status: int)

  /** The answer to a request that misses the cache: a 400 with the first
      failing check's message, or a 200 with the trends of the rows the
      filter selects. */
  function Answer(ps: seq<Param>, db: Database): Response
  {
    match Validate(ps, db.catalog)
    case Rejected(message) => Response(Error(message), 400)
    case Accepted(f) => Response(Data(TrendsOf(Query(db.readings, f), Units(db.catalog))), 200)
  }

  /** An accepted request reports a metric exactly when some reading of it
      passes the filter, and analyses that metric's selected readings in
      date order when the table is; a rejected one carries its message
      and status 400. */
  lemma AnswerDescribesReadings(ps: seq<Param>, db: Database, m: string)
    requires ReadingsInDateOrder(db.readings)
    ensures Validate(ps, db.catalog).Rejected? ==>
              Answer(ps, db) == Response(Error(Validate(ps, db.catalog).message), 400)
    ensures Validate(ps, db.catalog).Accepted? ==>
              var rows := Query(db.readings, Validate(ps, db.catalog).filter);
              && Answer(ps, db).status == 200
              && (m in Answer(ps, db).body.data <==>
                    exists i :: 0 <= i < |db.readings| && Matches(Validate(ps, db.catalog).filter, db.readings[i])
                                && db.readings[i].metric == m)
              && (m in Answer(ps, db).body.data ==>
                    Answer(ps, db).body.data[m] == Analysis(SeriesOf(rows, m), UnitOf(Units(db.catalog), m))
                    && InDateOrder(SeriesOf(rows, m)))
  {
    if Validate(ps, db.catalog).Accepted? {
      SelectedTrends(db.readings, Validate(ps, db.catalog).filter, Units(db.catalog), m);
    }
  }

  /** The trends of the rows a filter selects: a metric appears exactly
      when one of its readings passes, with its selected readings in date
      order when the table is. */
  lemma SelectedTrends(readings: seq<Reading>, f: Filter, units: map<string, string>, m: string)
    requires ReadingsInDateOrder(readings)
    ensures var rows := Query(readings, f);
      && (m in TrendsOf(rows, units) <==>
            exists i :: 0 <= i < |readings| && Matches(f, readings[i]) && readings[i].metric == m)
      && (m in TrendsOf(rows, units) ==>
            TrendsOf(rows, units)[m] == Analysis(SeriesOf(rows, m), UnitOf(units, m)) && InDateOrder(SeriesOf(rows, m)))
  {
    var rows := Query(readings, f);
    QuerySound(readings, f);
    QueryComplete(readings, f);
    QueryKeepsDateOrder(readings, f);
    TrendsFollowRows(rows, m);
    if HasMetric(rows, m) {
      var k :| 0 <= k < |rows| && rows[k].metric == m;
      var i :| 0 <= i < |readings| && Matches(f, readings[i]) && RowOf(readings[i]) == rows[k];
    }
    if exists i :: 0 <= i < |readings| && Matches(f, readings[i]) && readings[i].metric == m {
      var i :| 0 <= i < |readings| && Matches(f, readings[i]) && readings[i].metric == m;
      var k :| 0 <= k < |rows| && rows[k] == RowOf(readings[i]);
      assert rows[k].metric == m;
    }
  }

  /** `get_trends`: a cached answer is returned as it was stored (the
      stored `{"data": ...}` is never empty, so `if cached:` tests for
      presence); otherwise the answer is computed, and a 200 answer is
      stored for 600 seconds under the request's versioned key. */
  method GetTrends(cache: SimpleCache<map<string, MetricTrend>>, ps: seq<Param>, db: Database)
    returns (resp: Response)
    modifies cache
    ensures old(cache.Get(VersionedCacheKey("trends", ps))).Some? ==>
              resp == Response(Data(old(cache.Get(VersionedCacheKey("trends", ps))).value), 200)
              && cache.store == old(cache.store)
    ensures old(cache.Get(VersionedCacheKey("trends", ps))).None? ==>
              resp == Answer(ps, db)
              && cache.store == (if resp.status == 200
                                 then old(cache.store)[VersionedCacheKey("trends", ps) := Entry(resp.body.data, 600)]
                                 else old(cache.store))
  {
    var key := VersionedCacheKey("trends", ps);
    var cached := cache.Get(key);
    if cached.Some? {
      return Response(Data(cached.value), 200);
    }
    var v := Validate(ps, db.catalog);
    if v.Rejected? {
      return Response(Error(v.message), 400);
    }
    var rows := Query(db.readings, v.filter);
    var trends := ComputeTrends(rows, Units(db.catalog));
    assert trends == TrendsOf(rows, Units(db.catalog));
    cache.Set(key, trends, 600);
    resp := Response(Data(trends), 200);
  }

  /** Asking again gives the same answer: the first request leaves the
      answer in the cache when it was a 200, and a rejected request is
      rejected again. */
  method RepeatedRequest(cache: SimpleCache<map<string, MetricTrend>>, ps: seq<Param>, db: Database)
    returns (first: Response, second: Response)
    modifies cache
    ensures first == second
  {
    first := GetTrends(cache, ps, db);
    second := GetTrends(cache, ps, db);
  }
}

/** The analysis behind the trends endpoint: the rows of the query, in
    ascending date order, are grouped by metric, and each metric's series
    gets a least-squares trend, a list of anomalies (values more than two
    standard deviations from the mean), a seasonal breakdown, and two
    confidences that grow with the number of readings. */
module Trends {
  import opened Wrappers
  import opened Calendar
  import opened Stats
  import Validators

  /** A row of the trends query: metric name, date, value, quality. */
  datatype Row = Row(metric: string, date: ValidDate, value: real, quality: string)

  /** A reading of one metric: `(date, value, quality)`. */
  datatype Point = Point(date: ValidDate, value: real, quality: string)

  function PointOf(r: Row): Point
  {
    Point(r.date, r.value, r.quality)
  }

  // ---------------------------------------------------------------------
  // Grouping by metric

  /** The readings of metric `m`, in the order of the rows. */
  function SeriesOf(rows: seq<Row>, m: string): seq<Point>
    decreases |rows|
  {
    if |rows| == 0 then []
    else
      var last := rows[|rows| - 1];
      SeriesOf(rows[..|rows| - 1], m) + (if last.metric == m then [PointOf(last)] else [])
  }

  predicate HasMetric(rows: seq<Row>, m: string)
  {
    exists i :: 0 <= i < |rows| && rows[i].metric == m
  }

  /** The loop that fills `metrics_data`: a series for each metric that
      occurs in the rows, and for no other. */
  lemma HasMetricAppend(pre: seq<Row>, row: Row)
    ensures forall m :: HasMetric(pre + [row], m) <==> HasMetric(pre, m) || row.metric == m
  {
    var rows := pre + [row];
    forall m ensures HasMetric(rows, m) <==> HasMetric(pre, m) || row.metric == m {
      if HasMetric(rows, m) {
        var j :| 0 <= j < |rows| && rows[j].metric == m;
        if j < |pre| {
          assert pre[j].metric == m;
        }
      }
      if HasMetric(pre, m) {
        var j :| 0 <= j < |pre| && pre[j].metric == m;
        assert rows[j].metric == m;
      }
      if row.metric == m {
        assert rows[|pre|].metric == m;
      }
    }
  }

  method GroupByMetric(rows: seq<Row>) returns (groups: map<string, seq<Point>>)
    ensures forall m :: m in groups <==> HasMetric(rows, m)
    ensures forall m :: m in groups ==> groups[m] == SeriesOf(rows, m)
  {
    groups := map[];
    for i := 0 to |rows|
      invariant forall m :: m in groups <==> HasMetric(rows[..i], m)
      invariant forall m :: m in groups ==> groups[m] == SeriesOf(rows[..i], m)
      invariant forall m :: m !in groups ==> SeriesOf(rows[..i], m) == []
    {
      var row := rows[i];
      assert rows[..i + 1] == rows[..i] + [row];
      HasMetricAppend(rows[..i], row);
      if row.metric !in groups {
        groups := groups[row.metric := []];
      }
      groups := groups[row.metric := groups[row.metric] + [PointOf(row)]];
    }
    assert rows[..|rows|] == rows;
  }

  /** Splitting the rows splits every series the same way: the readings of
      earlier rows come first. */
  lemma {:induction false} SeriesOfAppend(a: seq<Row>, b: seq<Row>, m: string)
    ensures SeriesOf(a + b, m) == SeriesOf(a, m) + SeriesOf(b, m)
    decreases |b|
  {
    if |b| == 0 {
      assert a + b == a;
    } else {
      assert (a + b)[..|a + b| - 1] == a + b[..|b| - 1];
      SeriesOfAppend(a, b[..|b| - 1], m);
    }
  }

  /** Reading `p` is the reading of some row of metric `m`. */
  predicate FromRow(rows: seq<Row>, m: string, p: Point)
  {
    exists i :: 0 <= i < |rows| && rows[i].metric == m && PointOf(rows[i]) == p
  }

  /** Every reading of a series comes from a row of that metric. */
  lemma {:induction false} SeriesFromRows(rows: seq<Row>, m: string)
    ensures forall k :: 0 <= k < |SeriesOf(rows, m)| ==> FromRow(rows, m, SeriesOf(rows, m)[k])
    decreases |rows|
  {
    if |rows| > 0 {
      var n := |rows| - 1;
      var init := rows[..n];
      SeriesFromRows(init, m);
      var s := SeriesOf(rows, m);
      var p := SeriesOf(init, m);
      forall k | 0 <= k < |s|
        ensures FromRow(rows, m, s[k])
      {
        if k < |p| {
          assert s[k] == p[k];
          assert FromRow(init, m, p[k]);
          var i :| 0 <= i < |init| && init[i].metric == m && PointOf(init[i]) == p[k];
          assert rows[i] == init[i];
        } else {
          assert s == p + [PointOf(rows[n])];
          assert rows[n].metric == m && PointOf(rows[n]) == s[k];
        }
      }
    }
  }

  /** Date order of a sequence of readings: no reading comes after a later
      one. */
  predicate InDateOrder(ps: seq<Point>)
  {
    forall i, j :: 0 <= i < j < |ps| ==> !Before(ps[j].date, ps[i].date)
  }

  predicate RowsInDateOrder(rows: seq<Row>)
  {
    forall i, j :: 0 <= i < j < |rows| ==> !Before(rows[j].date, rows[i].date)
  }

  /** Rows delivered in ascending date order give every metric a series in
      ascending date order. */
  lemma {:induction false} SeriesKeepDateOrder(rows: seq<Row>, m: string)
    requires RowsInDateOrder(rows)
    ensures InDateOrder(SeriesOf(rows, m))
    decreases |rows|
  {
    if |rows| > 0 {
      var n := |rows| - 1;
      var init := rows[..n];
      assert RowsInDateOrder(init) by {
        forall i, j | 0 <= i < j < |init| ensures !Before(init[j].date, init[i].date) {
          assert init[i] == rows[i] && init[j] == rows[j];
        }
      }
      SeriesKeepDateOrder(init, m);
      SeriesFromRows(init, m);
      var s := SeriesOf(rows, m);
      var p := SeriesOf(init, m);
      if rows[n].metric == m {
        forall i, j | 0 <= i < j < |s| ensures !Before(s[j].date, s[i].date) {
          if j == |p| {
            var k :| 0 <= k < |init| && init[k].metric == m && PointOf(init[k]) == p[i];
            assert s[i].date == rows[k].date;
          } else {
            assert s[i] == p[i] && s[j] == p[j];
          }
        }
      }
    }
  }

  // ---------------------------------------------------------------------
  // The analysis of one series

  datatype Direction = Increasing | Decreasing | Stable

  /** `"increasing" if slope > 0 else "decreasing" if slope < 0 else
      "stable"` */
  function DirectionOf(slope: real): (d: Direction)
    ensures d == Increasing <==> slope > 0.0
    ensures d == Decreasing <==> slope < 0.0
    ensures d == Stable <==> slope == 0.0
  {
    if slope > 0.0 then Increasing else if slope < 0.0 then Decreasing else Stable
  }

  datatype Trend = Trend(direction: Option<Direction>, rate: Option<real>, unit: Option<string>, confidence: real)

  /** An anomalous reading: its date as `YYYY-MM-DD`, value, distance from
      the mean, and quality. */
  datatype Anomaly = Anomaly(date: string, value: real, deviation: real, quality: string)

  datatype SeasonStat = SeasonStat(avg: real, trend: Direction)

  datatype Seasonality = Seasonality(detected: bool, period: Option<string>, confidence: real,
                                     pattern: map<Season, SeasonStat>)

  datatype MetricTrend = MetricTrend(trend: Trend, anomalies: seq<Anomaly>, seasonality: Seasonality)

  /** `min(1.0, n / 30.0)` */
  function Confidence(n: nat): (c: real)
    ensures 0.0 <= c <= 1.0
    ensures n >= 30 ==> c == 1.0
    ensures n < 30 ==> c == n as real / 30.0
  {
    if (n as real) / 30.0 < 1.0 then (n as real) / 30.0 else 1.0
  }

  /** The entry for a series of fewer than two readings. */
  function NoSignal(unit: Option<string>): MetricTrend
  {
    MetricTrend(Trend(None, None, unit, 0.0), [],
                Seasonality(false, None, 0.0, map[]))
  }

  function Values(ps: seq<Point>): (vs: seq<real>)
    ensures |vs| == |ps|
  {
    seq(|ps|, i requires 0 <= i < |ps| => ps[i].value)
  }

  /** `date.toordinal()` of every reading. */
  function Ordinals(ps: seq<Point>): (xs: seq<real>)
    ensures |xs| == |ps|
    ensures AllPositive(xs)
  {
    seq(|ps|, i requires 0 <= i < |ps| => OrdinalPositive(ps[i].date); Ordinal(ps[i].date) as real)
  }

  lemma OrdinalPositive(d: Date)
    requires IsCalendarDate(d)
    ensures Ordinal(d) >= 1
  {
  }

  /** The positions `i` of the readings with `(vs[i] - m)^2 > t`, in
      increasing order. */
  function Outliers(vs: seq<real>, m: real, t: real): (idx: seq<nat>)
    ensures forall k :: 0 <= k < |idx| ==> idx[k] < |vs|
    decreases |vs|
  {
    if |vs| == 0 then []
    else Outliers(vs[..|vs| - 1], m, t) + (if FarFrom(vs[|vs| - 1], m, t) then [|vs| - 1] else [])
  }

  function AbsDiff(a: real, b: real): (r: real)
    ensures r >= 0.0 && (r == a - b || r == b - a)
  {
    if a >= b then a - b else b - a
  }

  /** The anomalies list comprehension, over the positions `Outliers`
      selects: the readings more than two standard deviations (a variance
      times four, squared) from the mean. */
  function AnomaliesOf(ps: seq<Point>): seq<Anomaly>
    requires |ps| > 0
  {
    var vs := Values(ps);
    var mean := Mean(vs);
    var idx := Outliers(vs, mean, 4.0 * Variance(vs));
    seq(|idx|, k requires 0 <= k < |idx| => AnomalyAt(ps, idx[k], mean))
  }

  /** The anomaly reported for reading `i` of a series with mean `mean`. */
  function AnomalyAt(ps: seq<Point>, i: nat, mean: real): Anomaly
    requires i < |ps|
  {
    Anomaly(Validators.Format(ps[i].date), ps[i].value, AbsDiff(ps[i].value, mean), ps[i].quality)
  }

  /** The values of the readings taken in season `s`, in order. */
  function SeasonValues(ps: seq<Point>, s: Season): seq<real>
    decreases |ps|
  {
    if |ps| == 0 then []
    else
      var last := ps[|ps| - 1];
      SeasonValues(ps[..|ps| - 1], s) + (if SeasonOf(last.date.month) == s then [last.value] else [])
  }

  const AllSeasons: set<Season> := {Winter, Spring, Summer, Fall}

  /** `season_groups` once every reading has been put in its season. */
  function SeasonGroups(ps: seq<Point>): map<Season, seq<real>>
  {
    map s | s in AllSeasons :: SeasonValues(ps, s)
  }

  /** A season's trend: its last value against its first; a season with one
      value is stable. */
  function SeasonTrend(vals: seq<real>): (d: Direction)
    requires |vals| > 0
    ensures d == Increasing <==> vals[|vals| - 1] > vals[0]
    ensures d == Decreasing <==> vals[|vals| - 1] < vals[0]
    ensures d == Stable <==> vals[|vals| - 1] == vals[0]
  {
    if |vals| > 1 then DirectionOf(vals[|vals| - 1] - vals[0]) else Stable
  }

  /** `pattern`: the average and trend of every season that has values. */
  function PatternOf(groups: map<Season, seq<real>>): map<Season, SeasonStat>
  {
    map s | s in groups && |groups[s]| > 0 :: SeasonStat(Mean(groups[s]), SeasonTrend(groups[s]))
  }

  function GroupSizes(groups: map<Season, seq<real>>): nat
  {
    (if Winter in groups then |groups[Winter]| else 0)
    + (if Spring in groups then |groups[Spring]| else 0)
    + (if Summer in groups then |groups[Summer]| else 0)
    + (if Fall in groups then |groups[Fall]| else 0)
  }

  function SeasonalityOf(groups: map<Season, seq<real>>): Seasonality
  {
    var detected := exists s :: s in groups && |groups[s]| > 0;
    Seasonality(detected, if detected then Some("yearly") else None,
                Confidence(GroupSizes(groups)), PatternOf(groups))
  }

  /** The trend of a series of two or more readings: the least-squares
      slope of value against day ordinal, its direction, the unit, and a
      confidence that grows with the number of readings. */
  function TrendOf(ps: seq<Point>, unit: Option<string>): Trend
    requires |ps| >= 2
  {
    var slope := Slope(Ordinals(ps), Values(ps));
    Trend(Some(DirectionOf(slope)), Some(slope), unit, Confidence(|ps|))
  }

  /** The entry the analysis makes for one metric's series. */
  function Analysis(ps: seq<Point>, unit: Option<string>): MetricTrend
  {
    if |ps| < 2 then NoSignal(unit)
    else MetricTrend(TrendOf(ps, unit), AnomaliesOf(ps), SeasonalityOf(SeasonGroups(ps)))
  }

  /** The loop that fills `season_groups`. */
  method GroupBySeason(ps: seq<Point>) returns (groups: map<Season, seq<real>>)
    ensures groups == SeasonGroups(ps)
  {
    groups := map[Winter := [], Spring := [], Summer := [], Fall := []];
    assert groups == SeasonGroups([]);
    for i := 0 to |ps|
      invariant groups == SeasonGroups(ps[..i])
    {
      var p := ps[i];
      var season := SeasonOf(p.date.month);
      assert ps[..i + 1][..i] == ps[..i];
      groups := groups[season := groups[season] + [p.value]];
      assert groups == SeasonGroups(ps[..i + 1]) by {
        assert groups.Keys == AllSeasons;
        forall s | s in AllSeasons ensures groups[s] == SeasonValues(ps[..i + 1], s) {
        }
      }
    }
    assert ps[..|ps|] == ps;
  }

  /** The loop that fills `pattern`: an average and a trend for every
      season that has values. */
  method BuildPattern(groups: map<Season, seq<real>>) returns (pattern: map<Season, SeasonStat>)
    ensures pattern == PatternOf(groups)
  {
    pattern := map[];
    var remaining := groups.Keys;
    while remaining != {}
      invariant remaining <= groups.Keys
      invariant forall s :: s in pattern <==> s in groups && s !in remaining && |groups[s]| > 0
      invariant forall s :: s in pattern ==> pattern[s] == SeasonStat(Mean(groups[s]), SeasonTrend(groups[s]))
      decreases |remaining|
    {
      var season :| season in remaining;
      var vals := groups[season];
      if |vals| > 0 {
        var avg := Mean(vals);
        var trend := Stable;
        if |vals| > 1 {
          trend := if vals[|vals| - 1] > vals[0] then Increasing
                   else if vals[|vals| - 1] < vals[0] then Decreasing
                   else Stable;
        }
        pattern := pattern[season := SeasonStat(avg, trend)];
      }
      remaining := remaining - {season};
    }
  }

  /** One metric's entry: the no-signal entry for fewer than two readings,
      else the fitted trend, the anomalies and the seasonal pattern. */
  method AnalyzeMetric(ps: seq<Point>, unit: Option<string>) returns (r: MetricTrend)
    ensures r == Analysis(ps, unit)
  {
    if |ps| < 2 {
      return NoSignal(unit);
    }
    var trend := TrendOf(ps, unit);
    var anomalies := AnomaliesOf(ps);
    var groups := GroupBySeason(ps);
    var pattern := BuildPattern(groups);
    var detected := exists s :: s in groups && |groups[s]| > 0;
    var seasonality := Seasonality(detected, if detected then Some("yearly") else None,
                                   Confidence(GroupSizes(groups)), pattern);
    r := MetricTrend(trend, anomalies, seasonality);
  }

  function UnitOf(units: map<string, string>, m: string): Option<string>
  {
    if m in units then Some(units[m]) else None
  }

  /** The loop over `metrics_data` that fills `trends_data`. */
  method AnalyzeAll(groups: map<string, seq<Point>>, units: map<string, string>)
    returns (result: map<string, MetricTrend>)
    ensures result.Keys == groups.Keys
    ensures forall m :: m in result ==> result[m] == Analysis(groups[m], UnitOf(units, m))
  {
    result := map[];
    var remaining := groups.Keys;
    while remaining != {}
      invariant remaining <= groups.Keys
      invariant result.Keys == groups.Keys - remaining
      invariant forall m :: m in result ==> result[m] == Analysis(groups[m], UnitOf(units, m))
      decreases |remaining|
    {
      var m :| m in remaining;
      var entry := AnalyzeMetric(groups[m], UnitOf(units, m));
      result := result[m := entry];
      remaining := remaining - {m};
    }
  }

  /** From the query's rows and the metric units to `trends_data`: one entry
      per metric that has rows, analysing that metric's readings in row
      order. */
  method ComputeTrends(rows: seq<Row>, units: map<string, string>) returns (result: map<string, MetricTrend>)
    ensures forall m :: m in result <==> HasMetric(rows, m)
    ensures forall m :: m in result ==> result[m] == Analysis(SeriesOf(rows, m), UnitOf(units, m))
  {
    var groups := GroupByMetric(rows);
    result := AnalyzeAll(groups, units);
  }

  // ---------------------------------------------------------------------
  // Properties of the analysis

  /** A series of fewer than two readings carries no trend, no anomalies and
      no seasonality, whatever its readings. */
  lemma ShortSeriesHasNoSignal(ps: seq<Point>, unit: Option<string>)
    requires |ps| < 2
    ensures Analysis(ps, unit).trend.direction == None && Analysis(ps, unit).trend.rate == None
    ensures Analysis(ps, unit).trend.unit == unit && Analysis(ps, unit).trend.confidence == 0.0
    ensures Analysis(ps, unit).anomalies == []
    ensures !Analysis(ps, unit).seasonality.detected && Analysis(ps, unit).seasonality.pattern == map[]
    ensures Analysis(ps, unit).seasonality.period == None && Analysis(ps, unit).seasonality.confidence == 0.0
  {
  }

  /** More readings never lower a confidence. */
  lemma ConfidenceGrows(n1: nat, n2: nat)
    requires n1 <= n2
    ensures Confidence(n1) <= Confidence(n2)
  {
  }

  /** The direction of a trend is the sign of its rate. */
  lemma DirectionIsSignOfRate(ps: seq<Point>, unit: Option<string>)
    requires |ps| >= 2
    ensures Analysis(ps, unit).trend.rate.Some?
    ensures var rate := Analysis(ps, unit).trend.rate.value;
      Analysis(ps, unit).trend.direction == Some(DirectionOf(rate)) &&
      (Analysis(ps, unit).trend.direction == Some(Increasing) <==> rate > 0.0) &&
      (Analysis(ps, unit).trend.direction == Some(Decreasing) <==> rate < 0.0)
    ensures Analysis(ps, unit).trend.confidence == Confidence(|ps|)
  {
  }

  /** Readings on the straight line `value = a * ordinal + b`. */
  predicate OnLine(ps: seq<Point>, a: real, b: real)
  {
    forall i :: 0 <= i < |ps| ==> Values(ps)[i] == a * Ordinals(ps)[i] + b
  }

  /** Readings on a straight line `value = a * ordinal + b`, taken on at
      least two different days, have rate `a`: rising lines are reported as
      increasing, falling ones as decreasing. */
  lemma LineHasItsSlope(ps: seq<Point>, unit: Option<string>, a: real, b: real)
    requires |ps| >= 2 && !AllEqual(Ordinals(ps)) && OnLine(ps, a, b)
    ensures TrendOf(ps, unit).rate == Some(a)
    ensures TrendOf(ps, unit).direction == Some(DirectionOf(a))
    ensures a > 0.0 ==> TrendOf(ps, unit).direction == Some(Increasing)
  {
    SlopeOfLine(Ordinals(ps), Values(ps), a, b);
  }

  /** A series whose readings all have one value, taken on at least two
      different days, is stable and has no anomalies. */
  lemma LevelSeriesIsStable(ps: seq<Point>, unit: Option<string>, c: real)
    requires |ps| >= 2 && !AllEqual(Ordinals(ps))
    requires forall i :: 0 <= i < |ps| ==> ps[i].value == c
    ensures TrendOf(ps, unit).rate == Some(0.0)
    ensures TrendOf(ps, unit).direction == Some(Stable)
    ensures AnomaliesOf(ps) == []
  {
    var vs := Values(ps);
    assert AllEqual(vs) by {
      forall i | 0 <= i < |vs| ensures vs[i] == vs[0] {
        assert vs[i] == ps[i].value;
      }
    }
    SlopeOfConstant(Ordinals(ps), vs);
    NoFarValues(vs);
  }

  /** A constant sequence has no value away from its mean. */
  lemma NoFarValues(vs: seq<real>)
    requires |vs| > 0 && AllEqual(vs)
    ensures Outliers(vs, Mean(vs), 4.0 * Variance(vs)) == []
  {
    ConstantSeries(vs, vs);
    MeanOfConstant(vs, vs[0]);
    var m, t := Mean(vs), 4.0 * Variance(vs);
    OutliersSelect(vs, m, t);
    forall i | 0 <= i < |vs| ensures !FarFrom(vs[i], m, t) {
      assert vs[i] - m == 0.0;
    }
    assert forall k :: 0 <= k < |Outliers(vs, m, t)| ==> Outliers(vs, m, t)[k] in Outliers(vs, m, t);
  }

  /** `Outliers` selects exactly the positions of the values away from `m`,
      in increasing order. */
  lemma {:induction false} OutliersSelect(vs: seq<real>, m: real, t: real)
    ensures forall i :: 0 <= i < |vs| ==> (i in Outliers(vs, m, t) <==> FarFrom(vs[i], m, t))
    ensures forall j, k :: 0 <= j < k < |Outliers(vs, m, t)| ==> Outliers(vs, m, t)[j] < Outliers(vs, m, t)[k]
    decreases |vs|
  {
    if |vs| > 0 {
      var n := |vs| - 1;
      var init := vs[..n];
      OutliersSelect(init, m, t);
      var p := Outliers(init, m, t);
      assert forall k :: 0 <= k < |p| ==> p[k] < n;
      forall i | 0 <= i < |vs| ensures i in Outliers(vs, m, t) <==> FarFrom(vs[i], m, t) {
        if i < n {
          assert vs[i] == init[i];
          assert i in Outliers(vs, m, t) <==> i in p;
        }
      }
    }
  }

  /** `Outliers` selects as many positions as `CountAbove` counts deviations
      from `m` above `t`. */
  lemma {:induction false} OutliersCount(vs: seq<real>, ds: seq<real>, m: real, t: real)
    requires |ds| == |vs|
    requires forall i :: 0 <= i < |vs| ==> ds[i] == vs[i] - m
    ensures |Outliers(vs, m, t)| == CountAbove(ds, t)
    decreases |vs|
  {
    if |vs| > 0 {
      var n := |vs| - 1;
      OutliersCount(vs[..n], ds[..n], m, t);
    }
  }

  lemma SquareOfAbsDiff(a: real, b: real)
    ensures Sq(AbsDiff(a, b)) == Sq(a - b)
  {
  }

  /** The anomalies are the readings more than two standard deviations from
      the mean, each reported with its date, value, quality and distance from
      the mean. */
  lemma AnomaliesAreFarReadings(ps: seq<Point>)
    requires |ps| > 0
    ensures var vs := Values(ps);
      forall i :: 0 <= i < |ps| ==>
        (FarFrom(ps[i].value, Mean(vs), 4.0 * Variance(vs)) <==>
         exists k :: 0 <= k < |AnomaliesOf(ps)| && AnomaliesOf(ps)[k] == AnomalyAt(ps, i, Mean(vs)))
  {
    var vs := Values(ps);
    var mean, t := Mean(vs), 4.0 * Variance(vs);
    var idx := Outliers(vs, mean, t);
    var an := AnomaliesOf(ps);
    assert |an| == |idx|;
    OutliersSelect(vs, mean, t);
    forall i | 0 <= i < |ps|
      ensures FarFrom(ps[i].value, mean, t) <==> exists k :: 0 <= k < |an| && an[k] == AnomalyAt(ps, i, mean)
    {
      assert vs[i] == ps[i].value;
      if FarFrom(ps[i].value, mean, t) {
        var k :| 0 <= k < |idx| && idx[k] == i;
        assert an[k] == AnomalyAt(ps, i, mean);
      }
      if exists k :: 0 <= k < |an| && an[k] == AnomalyAt(ps, i, mean) {
        var k :| 0 <= k < |an| && an[k] == AnomalyAt(ps, i, mean);
        assert an[k] == AnomalyAt(ps, idx[k], mean);
        assert vs[idx[k]] == ps[i].value;
      }
    }
  }

  /** Every anomaly's deviation is more than two standard deviations. */
  lemma AnomaliesDeviateFar(ps: seq<Point>)
    requires |ps| > 0
    ensures forall k :: 0 <= k < |AnomaliesOf(ps)| ==>
      AnomaliesOf(ps)[k].deviation >= 0.0 && Sq(AnomaliesOf(ps)[k].deviation) > 4.0 * Variance(Values(ps))
  {
    var vs := Values(ps);
    var mean, t := Mean(vs), 4.0 * Variance(vs);
    var idx := Outliers(vs, mean, t);
    var an := AnomaliesOf(ps);
    OutliersSelect(vs, mean, t);
    forall k | 0 <= k < |an| ensures an[k].deviation >= 0.0 && Sq(an[k].deviation) > t {
      assert an[k] == AnomalyAt(ps, idx[k], mean);
      assert idx[k] in idx;
      assert vs[idx[k]] == ps[idx[k]].value;
      SquareOfAbsDiff(ps[idx[k]].value, mean);
    }
  }

  /** Anomaly `a1` reports an earlier reading of `ps` than anomaly `a2`. */
  predicate ReportedBefore(ps: seq<Point>, a1: Anomaly, a2: Anomaly)
    requires |ps| > 0
  {
    exists i1, i2 :: 0 <= i1 < i2 < |ps| &&
      a1 == AnomalyAt(ps, i1, Mean(Values(ps))) && a2 == AnomalyAt(ps, i2, Mean(Values(ps)))
  }

  /** Anomalies are listed in the order of their readings. */
  lemma AnomaliesInReadingOrder(ps: seq<Point>)
    requires |ps| > 0
    ensures forall j, k :: 0 <= j < k < |AnomaliesOf(ps)| ==>
      ReportedBefore(ps, AnomaliesOf(ps)[j], AnomaliesOf(ps)[k])
  {
    var vs := Values(ps);
    var mean, t := Mean(vs), 4.0 * Variance(vs);
    var idx := Outliers(vs, mean, t);
    var an := AnomaliesOf(ps);
    OutliersSelect(vs, mean, t);
    forall j, k | 0 <= j < k < |an| ensures ReportedBefore(ps, an[j], an[k]) {
      assert an[j] == AnomalyAt(ps, idx[j], mean) && an[k] == AnomalyAt(ps, idx[k], mean);
      assert idx[j] < idx[k];
    }
  }

  /** Chebyshev's bound: fewer than a quarter of the readings are anomalies. */
  lemma FewAnomalies(ps: seq<Point>)
    requires |ps| > 0
    ensures 4 * |AnomaliesOf(ps)| < |ps|
  {
    var vs := Values(ps);
    OutliersCount(vs, Centered(vs), Mean(vs), 4.0 * Variance(vs));
    FewOutliers(vs);
  }

  /** Every reading falls in exactly one season, so the season groups hold
      as many values as there are readings. */
  lemma {:induction false} SeasonGroupsHoldEveryReading(ps: seq<Point>)
    ensures GroupSizes(SeasonGroups(ps)) == |ps|
    decreases |ps|
  {
    if |ps| > 0 {
      SeasonGroupsHoldEveryReading(ps[..|ps| - 1]);
    }
  }

  /** A season has values exactly when some reading falls in it. */
  lemma {:induction false} SeasonHasValues(ps: seq<Point>, s: Season)
    ensures |SeasonValues(ps, s)| > 0 <==> exists i :: 0 <= i < |ps| && SeasonOf(ps[i].date.month) == s
    decreases |ps|
  {
    if |ps| > 0 {
      var n := |ps| - 1;
      var init := ps[..n];
      SeasonHasValues(init, s);
      if exists i :: 0 <= i < |init| && SeasonOf(init[i].date.month) == s {
        var i :| 0 <= i < |init| && SeasonOf(init[i].date.month) == s;
        assert ps[i] == init[i];
      }
      if exists i :: 0 <= i < |ps| && SeasonOf(ps[i].date.month) == s {
        var i :| 0 <= i < |ps| && SeasonOf(ps[i].date.month) == s;
        if i < n {
          assert init[i] == ps[i];
        }
      }
    }
  }

  /** The seasonality of a series of two or more readings: detected, with a
      yearly period, the trend's confidence, and a pattern entry for exactly
      the seasons some reading falls in, whose trend compares the season's
      last value with its first. */
  lemma SeasonalityOfSeries(ps: seq<Point>, unit: Option<string>)
    requires |ps| >= 2
    ensures Analysis(ps, unit).seasonality.confidence == Analysis(ps, unit).trend.confidence
    ensures DescribesSeasons(Analysis(ps, unit).seasonality, ps)
  {
    AnalysisParts(ps, unit);
    SeasonalityOfReadings(ps);
  }

  /** `sn` reports a yearly pattern with one entry for each season some
      reading falls in: the mean of that season's values, and a trend that
      rises, falls or stays level as its last value is above, below or equal
      to its first (so a season with one value is stable). */
  predicate DescribesSeasons(sn: Seasonality, ps: seq<Point>)
  {
    sn.detected && sn.period == Some("yearly") &&
    (forall s :: s in sn.pattern <==> exists i :: 0 <= i < |ps| && SeasonOf(ps[i].date.month) == s) &&
    (forall s :: s in sn.pattern ==>
       |SeasonValues(ps, s)| > 0 &&
       sn.pattern[s].avg == Mean(SeasonValues(ps, s)) &&
       (sn.pattern[s].trend == Increasing <==>
          SeasonValues(ps, s)[|SeasonValues(ps, s)| - 1] > SeasonValues(ps, s)[0]) &&
       (sn.pattern[s].trend == Decreasing <==>
          SeasonValues(ps, s)[|SeasonValues(ps, s)| - 1] < SeasonValues(ps, s)[0]) &&
       (|SeasonValues(ps, s)| == 1 ==> sn.pattern[s].trend == Stable))
  }

  /** The seasonality of readings grouped by season. */
  lemma SeasonalityOfReadings(ps: seq<Point>)
    requires |ps| > 0
    ensures SeasonalityOf(SeasonGroups(ps)).confidence == Confidence(|ps|)
    ensures DescribesSeasons(SeasonalityOf(SeasonGroups(ps)), ps)
  {
    var groups := SeasonGroups(ps);
    SeasonGroupsHoldEveryReading(ps);
    forall s ensures |SeasonValues(ps, s)| > 0 <==> exists i :: 0 <= i < |ps| && SeasonOf(ps[i].date.month) == s {
      SeasonHasValues(ps, s);
    }
    SeasonHasValues(ps, SeasonOf(ps[0].date.month));
    assert groups[SeasonOf(ps[0].date.month)] == SeasonValues(ps, SeasonOf(ps[0].date.month));
    forall s | s in PatternOf(groups)
      ensures var vals := SeasonValues(ps, s); var st := PatternOf(groups)[s];
        |vals| > 0 && st.avg == Mean(vals) &&
        (st.trend == Increasing <==> vals[|vals| - 1] > vals[0]) &&
        (st.trend == Decreasing <==> vals[|vals| - 1] < vals[0]) &&
        (|vals| == 1 ==> st.trend == Stable)
    {
      PatternEntry(ps, s);
    }
  }

  /** The pattern entry of a season is the mean and the trend of that
      season's values. */
  lemma PatternEntry(ps: seq<Point>, s: Season)
    requires s in PatternOf(SeasonGroups(ps))
    ensures var vals := SeasonValues(ps, s); var st := PatternOf(SeasonGroups(ps))[s];
      |vals| > 0 && st == SeasonStat(Mean(vals), SeasonTrend(vals))
  {
    assert SeasonGroups(ps)[s] == SeasonValues(ps, s);
  }

  lemma AnalysisParts(ps: seq<Point>, unit: Option<string>)
    requires |ps| >= 2
    ensures Analysis(ps, unit).seasonality == SeasonalityOf(SeasonGroups(ps))
    ensures Analysis(ps, unit).trend.confidence == Confidence(|ps|)
  {
  }

  /** The trends of every metric that has rows: for each, the readings of
      that metric's rows in row order, so in date order when the rows are. */
  lemma TrendsFollowRows(rows: seq<Row>, m: string)
    requires RowsInDateOrder(rows)
    ensures InDateOrder(SeriesOf(rows, m))
    ensures forall k :: 0 <= k < |SeriesOf(rows, m)| ==> FromRow(rows, m, SeriesOf(rows, m)[k])
  {
    SeriesKeepDateOrder(rows, m);
    SeriesFromRows(rows, m);
  }
}

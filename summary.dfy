/** The aggregation behind the summary endpoint: the rows of the query are
    accumulated per metric (the unit of the metric's first row, its values,
    its quality-weighted values, and a count of each quality string), and
    each accumulator becomes a summary with min, max, mean, weighted mean
    and quality distribution. */
module Summary {
  import opened Wrappers
  import opened PyText
  import opened Stats
  import opened Quality

  /** A row of the summary query: metric name, unit (`None` where the
      metric's unit is `NULL`), value, quality. */
  datatype SummaryRow = SummaryRow(metric: string, unit: Option<string>, value: real, quality: string)

  /** `QUALITY_WEIGHTS.get(quality.lower(), 0.0)` */
  function RowWeight(quality: string): (w: real)
    ensures 0.0 <= w <= 1.0
  {
    WeightOf(Lower(quality))
  }

  // ---------------------------------------------------------------------
  // The `qualities` dict

  /** A `qualities` dict as its items: `(quality, count)` pairs in insertion
      order. */
  type Tally = seq<(string, nat)>

  predicate HasKey(t: Tally, q: string)
  {
    exists i :: 0 <= i < |t| && t[i].0 == q
  }

  /** What every `qualities` dict of the loop is: no key twice, and every
      count at least one. */
  predicate ValidTally(t: Tally)
  {
    (forall i, j :: 0 <= i < j < |t| ==> t[i].0 != t[j].0)
    && (forall i :: 0 <= i < |t| ==> t[i].1 >= 1)
  }

  /** `qualities[q] = qualities.get(q, 0) + 1` */
  function Bump(t: Tally, q: string): (r: Tally)
    decreases |t|
  {
    if |t| == 0 then [(q, 1)]
    else
      var last := t[|t| - 1];
      if last.0 == q then t[..|t| - 1] + [(q, last.1 + 1)]
      else Bump(t[..|t| - 1], q) + [last]
  }

  /** `qualities.get(q, 0)` for a dict without repeated keys. */
  function CountOf(t: Tally, q: string): nat
    decreases |t|
  {
    if |t| == 0 then 0
    else CountOf(t[..|t| - 1], q) + (if t[|t| - 1].0 == q then t[|t| - 1].1 else 0)
  }

  /** `sum(qualities.values())` */
  function CountTotal(t: Tally): nat
    decreases |t|
  {
    if |t| == 0 then 0 else CountTotal(t[..|t| - 1]) + t[|t| - 1].1
  }

  /** `total_weight`: each quality's weight times its count, summed. */
  function TotalWeight(t: Tally, w: string -> real): real
    decreases |t|
  {
    if |t| == 0 then 0.0
    else TotalWeight(t[..|t| - 1], w) + w(t[|t| - 1].0) * (t[|t| - 1].1 as real)
  }

  /** Bumping `q` keeps the dict free of repeated keys and zero counts,
      and adds `q` to its keys. */
  lemma {:induction false} BumpKeys(t: Tally, q: string)
    requires ValidTally(t)
    ensures ValidTally(Bump(t, q))
    ensures forall p :: HasKey(Bump(t, q), p) <==> HasKey(t, p) || p == q
    decreases |t|
  {
    if |t| > 0 {
      var n := |t| - 1;
      var init, last := t[..n], t[n];
      assert t == init + [last];
      assert ValidTally(init);
      if last.0 == q {
        BumpLast(init, last, q);
      } else {
        BumpKeys(init, q);
        BumpEarlier(init, last, q);
      }
    } else {
      assert Bump(t, q)[0].0 == q;
    }
  }

  /** The step of `BumpKeys` where the last key is `q`. */
  lemma BumpLast(init: Tally, last: (string, nat), q: string)
    requires ValidTally(init + [last]) && last.0 == q
    ensures ValidTally(Bump(init + [last], q))
    ensures forall p :: HasKey(Bump(init + [last], q), p) <==> HasKey(init + [last], p) || p == q
  {
    var t := init + [last];
    var n := |init|;
    assert t[..n] == init;
    var r := Bump(t, q);
    assert r == init + [(q, last.1 + 1)];
    assert forall i :: 0 <= i < n ==> r[i] == t[i];
    assert r[n].0 == t[n].0;
    forall p ensures HasKey(r, p) <==> HasKey(t, p) || p == q {
      if HasKey(r, p) {
        var i :| 0 <= i < |r| && r[i].0 == p;
        assert t[i].0 == p;
      }
      if HasKey(t, p) {
        var i :| 0 <= i < |t| && t[i].0 == p;
        assert r[i].0 == p;
      }
    }
  }

  /** The step of `BumpKeys` where the last key is not `q`. */
  lemma BumpEarlier(init: Tally, last: (string, nat), q: string)
    requires ValidTally(init + [last]) && last.0 != q
    requires ValidTally(Bump(init, q))
    requires forall p :: HasKey(Bump(init, q), p) <==> HasKey(init, p) || p == q
    ensures ValidTally(Bump(init + [last], q))
    ensures forall p :: HasKey(Bump(init + [last], q), p) <==> HasKey(init + [last], p) || p == q
  {
    var t := init + [last];
    var n := |init|;
    assert t[..n] == init;
    var b := Bump(init, q);
    var r := Bump(t, q);
    assert r == b + [last];
    assert !HasKey(init, last.0);
    assert !HasKey(b, last.0);
    assert ValidTally(r) by {
      forall i, j | 0 <= i < j < |r| ensures r[i].0 != r[j].0 {
        if j < |r| - 1 {
          assert r[i] == b[i] && r[j] == b[j];
        } else {
          assert r[i] == b[i];
        }
      }
      forall i | 0 <= i < |r| ensures r[i].1 >= 1 {
        if i < |r| - 1 {
          assert r[i] == b[i];
        }
      }
    }
    forall p ensures HasKey(r, p) <==> HasKey(t, p) || p == q {
      if HasKey(r, p) {
        var i :| 0 <= i < |r| && r[i].0 == p;
        if i < |r| - 1 {
          assert b[i].0 == p;
          if HasKey(init, p) {
            var k :| 0 <= k < |init| && init[k].0 == p;
            assert t[k].0 == p;
          }
        } else {
          assert t[n].0 == p;
        }
      }
      if HasKey(t, p) {
        var i :| 0 <= i < |t| && t[i].0 == p;
        if i < n {
          assert init[i].0 == p;
          assert HasKey(b, p);
          var k :| 0 <= k < |b| && b[k].0 == p;
          assert r[k].0 == p;
        } else {
          assert r[|r| - 1].0 == p;
        }
      }
      if p == q {
        assert HasKey(b, p);
        var k :| 0 <= k < |b| && b[k].0 == p;
        assert r[k].0 == p;
      }
    }
  }

  /** Bumping `q` adds one to the count of `q` and leaves the other counts. */
  lemma {:induction false} BumpCount(t: Tally, q: string, p: string)
    ensures CountOf(Bump(t, q), p) == CountOf(t, p) + (if p == q then 1 else 0)
    decreases |t|
  {
    if |t| > 0 {
      var n := |t| - 1;
      var init, last := t[..n], t[n];
      var r := Bump(t, q);
      if last.0 == q {
        assert r[..n] == init && r[n] == (q, last.1 + 1);
      } else {
        BumpCount(init, q, p);
        assert r[..|r| - 1] == Bump(init, q) && r[|r| - 1] == last;
      }
    }
  }

  /** Bumping `q` adds one to the total count. */
  lemma {:induction false} BumpCountTotal(t: Tally, q: string)
    ensures CountTotal(Bump(t, q)) == CountTotal(t) + 1
    decreases |t|
  {
    if |t| > 0 {
      var n := |t| - 1;
      var init, last := t[..n], t[n];
      var r := Bump(t, q);
      if last.0 == q {
        assert r[..n] == init && r[n] == (q, last.1 + 1);
      } else {
        BumpCountTotal(init, q);
        assert r[..|r| - 1] == Bump(init, q) && r[|r| - 1] == last;
      }
    }
  }

  /** Bumping `q` adds the weight of `q` to the total weight. */
  lemma {:induction false} BumpWeight(t: Tally, q: string, w: string -> real)
    ensures TotalWeight(Bump(t, q), w) == TotalWeight(t, w) + w(q)
    decreases |t|
  {
    if |t| > 0 {
      var n := |t| - 1;
      var init, last := t[..n], t[n];
      var r := Bump(t, q);
      if last.0 == q {
        assert r[..n] == init && r[n] == (q, last.1 + 1);
        ScaleSucc(w(q), last.1);
      } else {
        BumpWeight(init, q, w);
        assert r[..|r| - 1] == Bump(init, q) && r[|r| - 1] == last;
      }
    }
  }

  lemma ScaleSucc(x: real, n: nat)
    ensures x * ((n + 1) as real) == x * (n as real) + x
  {
  }

  /** A quality that is not a key has count zero. */
  lemma {:induction false} CountOfMissing(t: Tally, q: string)
    requires !HasKey(t, q)
    ensures CountOf(t, q) == 0
    decreases |t|
  {
    if |t| > 0 {
      var init := t[..|t| - 1];
      assert !HasKey(init, q);
      CountOfMissing(init, q);
    }
  }

  // ---------------------------------------------------------------------
  // Accumulating the rows of one metric

  /** A `metrics_summary` entry. */
  datatype Accum = Accum(unit: Option<string>, values: seq<real>, weighted: seq<real>, qualities: Tally)

  /** One row's effect on its metric's entry. */
  function Add(a: Accum, r: SummaryRow, w: string -> real): Accum
  {
    Accum(a.unit, a.values + [r.value], a.weighted + [r.value * w(r.quality)],
          Bump(a.qualities, r.quality))
  }

  /** The entry after the rows `rs`, starting from the fresh entry with
      `unit`; its dict never repeats a key nor holds a zero count. */
  function Fold(rs: seq<SummaryRow>, unit: Option<string>, w: string -> real): (a: Accum)
    ensures ValidTally(a.qualities)
    decreases |rs|
  {
    if |rs| == 0 then Accum(unit, [], [], [])
    else
      var prev := Fold(rs[..|rs| - 1], unit, w);
      BumpKeys(prev.qualities, rs[|rs| - 1].quality);
      Add(prev, rs[|rs| - 1], w)
  }

  /** The rows of metric `m`, in order. */
  function RowsOf(rows: seq<SummaryRow>, m: string): seq<SummaryRow>
    decreases |rows|
  {
    if |rows| == 0 then []
    else RowsOf(rows[..|rows| - 1], m) + (if rows[|rows| - 1].metric == m then [rows[|rows| - 1]] else [])
  }

  predicate HasMetric(rows: seq<SummaryRow>, m: string)
  {
    exists i :: 0 <= i < |rows| && rows[i].metric == m
  }

  /** The entry of metric `m` once every row has been seen: the unit of its
      first row, and its rows folded in. */
  function EntryOf(rows: seq<SummaryRow>, m: string, w: string -> real): Accum
    requires |RowsOf(rows, m)| > 0
  {
    Fold(RowsOf(rows, m), RowsOf(rows, m)[0].unit, w)
  }

  /** The summary of a metric whose rows are `rs`. */
  function SummaryOfRows(rs: seq<SummaryRow>, w: string -> real): MetricSummary
    requires |rs| > 0
  {
    SummaryOf(Fold(rs, rs[0].unit, w), w)
  }

  /** The weight of each row's quality. */
  function Weights(rs: seq<SummaryRow>, w: string -> real): (ws: seq<real>)
    ensures |ws| == |rs|
  {
    seq(|rs|, i requires 0 <= i < |rs| => w(rs[i].quality))
  }

  /** How many rows have quality text `q`, exactly as written. */
  function Occurrences(rs: seq<SummaryRow>, q: string): nat
    decreases |rs|
  {
    if |rs| == 0 then 0
    else Occurrences(rs[..|rs| - 1], q) + (if rs[|rs| - 1].quality == q then 1 else 0)
  }

  /** What an entry holds after rows `rs`: the starting unit, and the
      values of the rows in order. */
  lemma {:induction false} FoldValues(rs: seq<SummaryRow>, unit: Option<string>, w: string -> real)
    ensures var a := Fold(rs, unit, w);
      a.unit == unit && |a.values| == |rs|
      && (forall k :: 0 <= k < |rs| ==> a.values[k] == rs[k].value)
    decreases |rs|
  {
    if |rs| > 0 {
      FoldValues(rs[..|rs| - 1], unit, w);
    }
  }

  /** The dict of an entry after rows `rs`: its keys are the qualities that
      occur, each with its number of occurrences. */
  lemma {:induction false} FoldCounts(rs: seq<SummaryRow>, unit: Option<string>, w: string -> real)
    ensures var t := Fold(rs, unit, w).qualities;
      (forall q :: HasKey(t, q) <==> Occurrences(rs, q) > 0)
      && (forall q :: CountOf(t, q) == Occurrences(rs, q))
    decreases |rs|
  {
    if |rs| > 0 {
      var n := |rs| - 1;
      var init, r := rs[..n], rs[n];
      FoldCounts(init, unit, w);
      var t0 := Fold(init, unit, w).qualities;
      BumpKeys(t0, r.quality);
      forall q ensures CountOf(Bump(t0, r.quality), q) == CountOf(t0, q) + (if q == r.quality then 1 else 0) {
        BumpCount(t0, r.quality, q);
      }
    }
  }

  /** The counts of an entry's dict add up to its number of rows. */
  lemma {:induction false} FoldCountTotal(rs: seq<SummaryRow>, unit: Option<string>, w: string -> real)
    ensures CountTotal(Fold(rs, unit, w).qualities) == |rs|
    decreases |rs|
  {
    if |rs| > 0 {
      var init := rs[..|rs| - 1];
      FoldCountTotal(init, unit, w);
      BumpCountTotal(Fold(init, unit, w).qualities, rs[|rs| - 1].quality);
    }
  }

  /** The rows of a metric that has rows are not empty, and come from rows
      of that metric. */
  lemma {:induction false} RowsOfMetric(rows: seq<SummaryRow>, m: string)
    ensures |RowsOf(rows, m)| > 0 <==> HasMetric(rows, m)
    ensures forall k :: 0 <= k < |RowsOf(rows, m)| ==> RowsOf(rows, m)[k].metric == m
    decreases |rows|
  {
    if |rows| > 0 {
      var n := |rows| - 1;
      var init := rows[..n];
      RowsOfMetric(init, m);
      if HasMetric(init, m) {
        var i :| 0 <= i < |init| && init[i].metric == m;
        assert rows[i].metric == m;
      }
      if HasMetric(rows, m) && rows[n].metric != m {
        var i :| 0 <= i < |rows| && rows[i].metric == m;
        assert init[i].metric == m;
      }
    }
  }

  /** A row of another metric leaves metric `m`'s rows as they were. */
  lemma RowsOfOther(pre: seq<SummaryRow>, row: SummaryRow, m: string)
    requires row.metric != m
    ensures RowsOf(pre + [row], m) == RowsOf(pre, m)
  {
    assert (pre + [row])[..|pre|] == pre;
  }

  /** A row of metric `m` extends its entry by one `Add`, starting from the
      fresh entry with the row's own unit when the metric is new. */
  lemma EntryStep(pre: seq<SummaryRow>, row: SummaryRow, w: string -> real)
    ensures RowsOf(pre + [row], row.metric) == RowsOf(pre, row.metric) + [row]
    ensures EntryOf(pre + [row], row.metric, w)
         == Add(if |RowsOf(pre, row.metric)| > 0 then EntryOf(pre, row.metric, w)
                else Accum(row.unit, [], [], []), row, w)
  {
    var m := row.metric;
    assert (pre + [row])[..|pre|] == pre;
    var rs := RowsOf(pre, m);
    var unit := (rs + [row])[0].unit;
    assert (rs + [row])[..|rs|] == rs;
    assert Fold(rs + [row], unit, w) == Add(Fold(rs, unit, w), row, w);
    if |rs| > 0 {
      assert unit == rs[0].unit;
    }
  }

  /** The loop that fills `metrics_summary`, weighing each row by `w` of its
      quality. */
  method Accumulate(rows: seq<SummaryRow>, w: string -> real) returns (acc: map<string, Accum>)
    ensures acc == Entries(rows, w)
    ensures forall m :: m in acc <==> HasMetric(rows, m)
    ensures forall m :: m in acc ==> |RowsOf(rows, m)| > 0 && acc[m] == EntryOf(rows, m, w)
  {
    acc := map[];
    for i := 0 to |rows|
      invariant acc == Entries(rows[..i], w)
    {
      var row := rows[i];
      assert rows[..i + 1][..i] == rows[..i];
      assert Entries(rows[..i + 1], w) == Step(acc, row, w);
      var weight := w(row.quality);
      var a := if row.metric in acc then acc[row.metric] else Accum(row.unit, [], [], []);
      assert Add(a, row, w).weighted[|a.weighted|] == row.value * weight;
      assert Add(a, row, w) == Accum(a.unit, a.values + [row.value], a.weighted + [row.value * weight],
                                     Bump(a.qualities, row.quality));
      acc := acc[row.metric := Accum(a.unit, a.values + [row.value], a.weighted + [row.value * weight],
                                     Bump(a.qualities, row.quality))];
    }
    assert rows[..|rows|] == rows;
    EntriesFilled(rows, w);
    forall m ensures m in acc <==> HasMetric(rows, m) {
      RowsOfMetric(rows, m);
    }
  }

  /** `metrics_summary` after the rows `rows`, one `Step` per row. */
  function Entries(rows: seq<SummaryRow>, w: string -> real): map<string, Accum>
    decreases |rows|
  {
    if |rows| == 0 then map[] else Step(Entries(rows[..|rows| - 1], w), rows[|rows| - 1], w)
  }

  /** Every metric seen has its entry, and no other metric has one. */
  lemma {:induction false} EntriesFilled(rows: seq<SummaryRow>, w: string -> real)
    ensures Filled(Entries(rows, w), rows, w)
    decreases |rows|
  {
    if |rows| > 0 {
      var pre := rows[..|rows| - 1];
      assert pre + [rows[|rows| - 1]] == rows;
      EntriesFilled(pre, w);
      FilledStep(Entries(pre, w), pre, rows[|rows| - 1], w);
    }
  }

  /** `acc` holds exactly the metrics seen in `rows`, each with its entry. */
  ghost predicate Filled(acc: map<string, Accum>, rows: seq<SummaryRow>, w: string -> real)
  {
    (forall m :: m in acc <==> |RowsOf(rows, m)| > 0)
    && (forall m :: m in acc ==> |RowsOf(rows, m)| > 0 && acc[m] == EntryOf(rows, m, w))
  }

  /** One pass of the loop over `row`. */
  function Step(acc: map<string, Accum>, row: SummaryRow, w: string -> real): map<string, Accum>
  {
    var a := if row.metric in acc then acc[row.metric] else Accum(row.unit, [], [], []);
    acc[row.metric := Add(a, row, w)]
  }

  lemma FilledStep(acc: map<string, Accum>, pre: seq<SummaryRow>, row: SummaryRow, w: string -> real)
    requires Filled(acc, pre, w)
    ensures Filled(Step(acc, row, w), pre + [row], w)
  {
    var next, rows := Step(acc, row, w), pre + [row];
    forall m
      ensures m in next <==> |RowsOf(rows, m)| > 0
      ensures m in next ==> |RowsOf(rows, m)| > 0 && next[m] == EntryOf(rows, m, w)
    {
      if m == row.metric {
        EntryStep(pre, row, w);
      } else {
        RowsOfOther(pre, row, m);
      }
    }
  }

  // ---------------------------------------------------------------------
  // From an entry to the metric's summary

  /** `count / total` for every quality, in the dict's order. */
  function Distribution(t: Tally): (d: seq<(string, real)>)
    requires CountTotal(t) > 0
    ensures |d| == |t|
  {
    seq(|t|, k requires 0 <= k < |t| => (t[k].0, (t[k].1 as real) / (CountTotal(t) as real)))
  }

  /** A metric's summary; the absent keys of the JSON object are `None`. */
  datatype MetricSummary = MetricSummary(
    min: Option<real>, max: Option<real>, avg: Option<real>, unit: Option<string>,
    weightedAvg: Option<real>, distribution: Option<seq<(string, real)>>)

  /** `metric_summary` for one entry, with `w` the weight of a quality. */
  function SummaryOf(a: Accum, w: string -> real): MetricSummary
    requires ValidTally(a.qualities)
  {
    var totalWeight := TotalWeight(a.qualities, w);
    MetricSummary(
      if |a.values| > 0 then Some(Min(a.values)) else None,
      if |a.values| > 0 then Some(Max(a.values)) else None,
      if |a.values| > 0 then Some(Mean(a.values)) else None,
      a.unit,
      if totalWeight > 0.0 then Some(Sum(a.weighted) / totalWeight) else None,
      if |a.qualities| > 0 then (DistributionDefined(a.qualities); Some(Distribution(a.qualities))) else None)
  }

  lemma {:induction false} DistributionDefined(t: Tally)
    requires ValidTally(t) && |t| > 0
    ensures CountTotal(t) >= |t|
    decreases |t|
  {
    var init := t[..|t| - 1];
    assert ValidTally(init);
    if |init| > 0 {
      DistributionDefined(init);
    }
  }

  /** The loop that fills `summary_data`. */
  method SummarizeAll(acc: map<string, Accum>, w: string -> real) returns (data: map<string, MetricSummary>)
    requires forall m :: m in acc ==> ValidTally(acc[m].qualities)
    ensures data.Keys == acc.Keys
    ensures forall m :: m in data ==> data[m] == SummaryOf(acc[m], w)
  {
    data := map[];
    var remaining := acc.Keys;
    while remaining != {}
      invariant remaining <= acc.Keys
      invariant data.Keys == acc.Keys - remaining
      invariant forall m :: m in data ==> data[m] == SummaryOf(acc[m], w)
      decreases |remaining|
    {
      var m :| m in remaining;
      data := data[m := SummaryOf(acc[m], w)];
      remaining := remaining - {m};
    }
  }

  /** From the query's rows to `summary_data`: one summary per metric that
      has rows, of that metric's rows in order. */
  method Summarize(rows: seq<SummaryRow>) returns (data: map<string, MetricSummary>)
    ensures forall m :: m in data <==> HasMetric(rows, m)
    ensures forall m :: m in data ==>
      |RowsOf(rows, m)| > 0 && data[m] == SummaryOfRows(RowsOf(rows, m), RowWeight)
  {
    var acc := Accumulate(rows, RowWeight);
    data := SummarizeAll(acc, RowWeight);
  }

  // ---------------------------------------------------------------------
  // Properties of a metric's summary, for any weights

  /** The weights of the endpoint: every one in [0, 1], and positive exactly
      for the quality strings that lower-case to one of the four tiers. */
  lemma RowWeightIsAWeight(quality: string)
    ensures 0.0 <= RowWeight(quality) <= 1.0
    ensures RowWeight(quality) > 0.0 <==> exists q :: q in QualityValues && Name(q) == Lower(quality)
  {
    WeightKeysAreTierNames(Lower(quality));
  }

  /** The summary of a metric's rows: `min`, `max` and `avg` are present, the
      unit is the first row's, `min` and `max` are values of the rows, and
      `min <= avg <= max`. */
  lemma SummaryBounds(rs: seq<SummaryRow>, w: string -> real)
    requires |rs| > 0
    ensures var s := SummaryOfRows(rs, w);
      s.min.Some? && s.max.Some? && s.avg.Some? && s.unit == rs[0].unit
      && s.min.value <= s.avg.value <= s.max.value
      && (exists k :: 0 <= k < |rs| && rs[k].value == s.min.value)
      && (exists k :: 0 <= k < |rs| && rs[k].value == s.max.value)
      && (forall k :: 0 <= k < |rs| ==> s.min.value <= rs[k].value <= s.max.value)
  {
    FoldValues(rs, rs[0].unit, w);
    var vs := Fold(rs, rs[0].unit, w).values;
    MeanWithinRange(vs);
    var lo := Min(vs);
    var klo :| 0 <= klo < |vs| && vs[klo] == lo;
    assert rs[klo].value == lo;
    var hi := Max(vs);
    var khi :| 0 <= khi < |vs| && vs[khi] == hi;
    assert rs[khi].value == hi;
    forall k | 0 <= k < |rs| ensures lo <= rs[k].value <= hi {
      assert vs[k] == rs[k].value;
    }
  }

  /** The fractions of a distribution, in order. */
  function Fractions(d: seq<(string, real)>): (fs: seq<real>)
    ensures |fs| == |d|
  {
    seq(|d|, k requires 0 <= k < |d| => d[k].1)
  }

  /** `count / total` over non-empty valid counts: each fraction is in
      (0, 1] and belongs to its quality. */
  lemma DistributionIsFractions(t: Tally)
    requires ValidTally(t) && |t| > 0
    ensures CountTotal(t) > 0
    ensures forall k :: 0 <= k < |t| ==> Distribution(t)[k].0 == t[k].0 && 0.0 < Distribution(t)[k].1 <= 1.0
  {
    DistributionDefined(t);
    var d := Distribution(t);
    var total := CountTotal(t) as real;
    forall k | 0 <= k < |t| ensures 0.0 < d[k].1 <= 1.0 {
      CountBelowTotal(t, k);
      ProperFraction(t[k].1 as real, total);
    }
  }

  /** The fractions `count / total` add up to one. */
  lemma DistributionSumsToOne(t: Tally)
    requires CountTotal(t) > 0
    ensures Sum(Fractions(Distribution(t))) == 1.0
  {
    var total := CountTotal(t) as real;
    var fs := seq(|t|, k requires 0 <= k < |t| => (t[k].1 as real) / total);
    FractionsSum(t, total);
    var d := Distribution(t);
    assert forall k :: 0 <= k < |t| ==> Fractions(d)[k] == fs[k];
    assert Fractions(d) == fs;
    QuotientOfMultiple(total, total, 1.0);
  }

  lemma ProperFraction(a: real, b: real)
    requires 0.0 < a <= b
    ensures 0.0 < a / b <= 1.0
  {
  }

  lemma {:induction false} CountBelowTotal(t: Tally, k: nat)
    requires k < |t|
    ensures t[k].1 <= CountTotal(t)
    decreases |t|
  {
    if k < |t| - 1 {
      CountBelowTotal(t[..|t| - 1], k);
    }
  }

  lemma {:induction false} FractionsSum(t: Tally, total: real)
    requires total > 0.0
    ensures Sum(seq(|t|, k requires 0 <= k < |t| => (t[k].1 as real) / total)) == (CountTotal(t) as real) / total
    decreases |t|
  {
    var fs := seq(|t|, k requires 0 <= k < |t| => (t[k].1 as real) / total);
    if |t| > 0 {
      var init := t[..|t| - 1];
      FractionsSum(init, total);
      assert fs[..|fs| - 1] == seq(|init|, k requires 0 <= k < |init| => (init[k].1 as real) / total);
      assert (CountTotal(init) as real) / total + (t[|t| - 1].1 as real) / total
          == ((CountTotal(init) + t[|t| - 1].1) as real) / total;
    }
  }

  /** In a dict without repeated keys, the count of a key is its entry's. */
  lemma {:induction false} CountOfKey(t: Tally, k: nat)
    requires ValidTally(t) && k < |t|
    ensures CountOf(t, t[k].0) == t[k].1
    decreases |t|
  {
    var n := |t| - 1;
    var init := t[..n];
    assert ValidTally(init);
    if k < n {
      CountOfKey(init, k);
      assert t[n].0 != t[k].0;
    } else {
      assert !HasKey(init, t[n].0);
      CountOfMissing(init, t[n].0);
    }
  }

  /** The summary's quality distribution: one fraction for each distinct
      quality string of the metric's rows, that string's share of the rows;
      the fractions are positive and add up to one. */
  lemma QualityShares(rs: seq<SummaryRow>, w: string -> real)
    requires |rs| > 0
    ensures var t := Fold(rs, rs[0].unit, w).qualities;
      var s := SummaryOfRows(rs, w);
      s.distribution.Some? && |s.distribution.value| == |t|
      && (forall k :: 0 <= k < |t| ==>
            s.distribution.value[k] == (t[k].0, (Occurrences(rs, t[k].0) as real) / (|rs| as real))
            && 0.0 < s.distribution.value[k].1 <= 1.0)
      && (forall q :: HasKey(t, q) <==> Occurrences(rs, q) > 0)
      && Sum(Fractions(s.distribution.value)) == 1.0
  {
    FoldCounts(rs, rs[0].unit, w);
    FoldCountTotal(rs, rs[0].unit, w);
    var t := Fold(rs, rs[0].unit, w).qualities;
    assert |t| > 0 by {
      assert Occurrences(rs, rs[|rs| - 1].quality) > 0;
      assert HasKey(t, rs[|rs| - 1].quality);
    }
    DistributionIsFractions(t);
    DistributionSumsToOne(t);
    forall k | 0 <= k < |t| ensures t[k].1 == Occurrences(rs, t[k].0) {
      CountOfKey(t, k);
    }
  }

  /** The values of the rows, in order. */
  function Values(rs: seq<SummaryRow>): (vs: seq<real>)
    ensures |vs| == |rs|
  {
    seq(|rs|, i requires 0 <= i < |rs| => rs[i].value)
  }

  /** The total weight of a metric's dict is the sum of its rows' weights. */
  lemma {:induction false} FoldTotalWeight(rs: seq<SummaryRow>, unit: Option<string>, w: string -> real)
    ensures TotalWeight(Fold(rs, unit, w).qualities, w) == Sum(Weights(rs, w))
    decreases |rs|
  {
    if |rs| > 0 {
      var n := |rs| - 1;
      var init, r := rs[..n], rs[n];
      FoldTotalWeight(init, unit, w);
      BumpWeight(Fold(init, unit, w).qualities, r.quality, w);
      assert Weights(rs, w)[..n] == Weights(init, w);
    }
  }

  /** The weighted values of a metric add up to `sum(v * w)` over its rows. */
  lemma {:induction false} FoldWeightedSum(rs: seq<SummaryRow>, unit: Option<string>, w: string -> real)
    ensures Sum(Fold(rs, unit, w).weighted) == Dot(Values(rs), Weights(rs, w))
    decreases |rs|
  {
    if |rs| > 0 {
      var n := |rs| - 1;
      var init := rs[..n];
      FoldWeightedSum(init, unit, w);
      var a := Fold(init, unit, w);
      assert Fold(rs, unit, w) == Add(a, rs[n], w);
      WeightedStep(a, rs[n], w);
      ValuesWeightsStep(rs, w);
    }
  }

  lemma WeightedStep(a: Accum, r: SummaryRow, w: string -> real)
    ensures Sum(Add(a, r, w).weighted) == Sum(a.weighted) + r.value * w(r.quality)
  {
    var ws := a.weighted + [r.value * w(r.quality)];
    assert ws[..|a.weighted|] == a.weighted;
  }

  lemma ValuesWeightsStep(rs: seq<SummaryRow>, w: string -> real)
    requires |rs| > 0
    ensures Dot(Values(rs), Weights(rs, w))
         == Dot(Values(rs[..|rs| - 1]), Weights(rs[..|rs| - 1], w)) + rs[|rs| - 1].value * w(rs[|rs| - 1].quality)
  {
    var n := |rs| - 1;
    assert Values(rs)[..n] == Values(rs[..n]);
    assert Weights(rs, w)[..n] == Weights(rs[..n], w);
  }

  /** With non-negative weights, the weighted mean is present exactly when
      some row has a positive weight, and is then the weighted values summed
      over the weights summed: `sum(v * w) / sum(w)`. */
  lemma WeightedMean(rs: seq<SummaryRow>, w: string -> real)
    requires |rs| > 0
    requires forall q :: w(q) >= 0.0
    ensures var s := SummaryOfRows(rs, w);
      (s.weightedAvg.Some? <==> Sum(Weights(rs, w)) > 0.0)
      && (s.weightedAvg.Some? <==> exists k :: 0 <= k < |rs| && w(rs[k].quality) > 0.0)
      && (s.weightedAvg.Some? ==> s.weightedAvg.value == Dot(Values(rs), Weights(rs, w)) / Sum(Weights(rs, w)))
  {
    FoldTotalWeight(rs, rs[0].unit, w);
    FoldWeightedSum(rs, rs[0].unit, w);
    var ws := Weights(rs, w);
    PositiveSum(ws);
    assert (exists k :: 0 <= k < |ws| && ws[k] > 0.0) <==> exists k :: 0 <= k < |rs| && w(rs[k].quality) > 0.0 by {
      assert forall k :: 0 <= k < |rs| ==> ws[k] == w(rs[k].quality);
    }
  }

  /** A sum of non-negative terms is positive exactly when some term is. */
  lemma {:induction false} PositiveSum(ws: seq<real>)
    requires forall k :: 0 <= k < |ws| ==> ws[k] >= 0.0
    ensures Sum(ws) >= 0.0
    ensures Sum(ws) > 0.0 <==> exists k :: 0 <= k < |ws| && ws[k] > 0.0
    decreases |ws|
  {
    if |ws| > 0 {
      var init := ws[..|ws| - 1];
      PositiveSum(init);
      if exists k :: 0 <= k < |init| && init[k] > 0.0 {
        var k :| 0 <= k < |init| && init[k] > 0.0;
        assert ws[k] > 0.0;
      }
      if exists k :: 0 <= k < |ws| && ws[k] > 0.0 {
        var k :| 0 <= k < |ws| && ws[k] > 0.0;
        if k < |init| {
          assert init[k] > 0.0;
        }
      }
    }
  }

  /** With non-negative weights, the weighted mean lies between the smallest
      and the largest value. */
  lemma WeightedMeanWithinRange(rs: seq<SummaryRow>, w: string -> real)
    requires |rs| > 0
    requires forall q :: w(q) >= 0.0
    ensures var s := SummaryOfRows(rs, w);
      s.weightedAvg.Some? ==> s.min.value <= s.weightedAvg.value <= s.max.value
  {
    WeightedMean(rs, w);
    SummaryBounds(rs, w);
    var s := SummaryOfRows(rs, w);
    if s.weightedAvg.Some? {
      var vs, ws := Values(rs), Weights(rs, w);
      assert forall k :: 0 <= k < |vs| ==> vs[k] == rs[k].value;
      WeightedAverageBounds(vs, ws, s.min.value, s.max.value);
    }
  }

  /** A weighted average of values in `[lo, hi]` with non-negative weights
      of positive sum lies in `[lo, hi]`. */
  lemma WeightedAverageBounds(vs: seq<real>, ws: seq<real>, lo: real, hi: real)
    requires |vs| == |ws|
    requires forall k :: 0 <= k < |vs| ==> lo <= vs[k] <= hi
    requires forall k :: 0 <= k < |ws| ==> ws[k] >= 0.0
    requires Sum(ws) > 0.0
    ensures lo <= Dot(vs, ws) / Sum(ws) <= hi
  {
    DotBounds(vs, ws, lo, hi);
    assert Bracketed(lo, Dot(vs, ws), hi, Sum(ws));
    DivBounds(Dot(vs, ws), Sum(ws), lo, hi);
  }

  /** Weights `ws >= 0` spread over values in `[lo, hi]`. */
  lemma {:induction false} DotBounds(vs: seq<real>, ws: seq<real>, lo: real, hi: real)
    requires |vs| == |ws|
    requires forall k :: 0 <= k < |vs| ==> lo <= vs[k] <= hi
    requires forall k :: 0 <= k < |ws| ==> ws[k] >= 0.0
    ensures lo * Sum(ws) <= Dot(vs, ws) <= hi * Sum(ws)
    decreases |vs|
  {
    if |vs| > 0 {
      var n := |vs| - 1;
      DotBounds(vs[..n], ws[..n], lo, hi);
      ScaleBounds(vs[n], ws[n], lo, hi);
    }
  }

  lemma ScaleBounds(v: real, w: real, lo: real, hi: real)
    requires lo <= v <= hi && w >= 0.0
    ensures lo * w <= v * w <= hi * w
  {
  }
}

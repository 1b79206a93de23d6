# Climate API core, modelled in Dafny

This project models the logic of a small Flask API that serves climate
readings from a MySQL database. The modelled core has six parts:

- **trend analysis** (`get_trends`): readings are grouped by metric. Each
  series gets a least-squares slope and a trend direction, anomalies more
  than two standard deviations from the mean, a four-season pattern, and
  confidences that grow with the number of readings.
- **summary aggregation** (`get_summary`): per metric, the minimum,
  maximum, mean, quality-weighted mean and quality distribution.
- **quality tier selection**: a `quality_threshold` request argument
  chooses the quality tiers a query admits.
- **versioned cache keys** (`get_versioned_cache_key`, `get_version`).
- **the startup cache sweep** (`clear_old_versioned_cache_keys`) and
  `clear_forever_cache_keys`.
- **the input validators**: `is_valid_int`, `is_valid_date`,
  `is_valid_date_range` and `is_valid_id`.

`get_trends` is also modelled end to end. Its request arguments are checked
in the source's order, and the first failing check is the one reported. An
accepted request becomes a filter over the readings. The trends of the
selected readings are cached for 600 seconds under the request's versioned
key, and a later identical request is answered from the cache.

The database is a value (`Api.Database`): the metric catalogue
(`name -> unit`) and the joined readings. The cache is a class
(`Helpers.SimpleCache`) whose methods update a `map` in place. Python's
string operations that the core relies on are written out in `PyText`:
ordering, `split`, `join`, `strip`, `lower`, `startswith` and `in`.

Layout, one module per file:

- `wrappers.dfy`: `Option`.
- `pytext.dfy`: Python string operations.
- `calendar.dfy`: Gregorian dates, day ordinals and seasons.
- `validators.dfy`: `utils/validators.py`, modelling `int()` and `strptime`.
- `quality.dfy`: `utils/constants.py` and tier selection.
- `config.dfy`: `utils/config.py`.
- `helpers.dfy`: `utils/helpers.py` and the cache.
- `stats.dfy`: mean, variance and least-squares slope over reals.
- `trends.dfy`: the analysis body of `get_trends`.
- `summary.dfy`: the aggregation in `get_summary`.
- `api.dfy`: the request flow of `get_trends`.

Design decisions:

- Dates are compared and ordered through their proleptic Gregorian day
  ordinal, as `date.toordinal()` does (`Calendar.Ordinal`).
- `strptime("%Y-%m-%d")` is modelled with its leniency. A one-digit month
  or day is accepted (`2025-1-5`), and the year has exactly four digits.
- Cache versions are compared as text, as the source does. `"9"` is not
  older than `"10"`.
- `int()` accepts surrounding whitespace, a sign and digit groups
  separated by single underscores (`1_000`).
- The slope is the ordinary least-squares slope. When all dates of a
  series coincide at ordinal `c`, the fit is rank deficient. `np.polyfit`
  scales both columns of its design matrix to unit length, which makes
  them identical, and its minimum-norm least-squares solution then splits
  the mean evenly between slope and intercept: the slope is
  `mean / (2 * c)`. `Stats.SlopeOfOneDate` states that value and its sign.
- The anomaly test `|v - mean| > 2 * std` is stated without a square root,
  as `(v - mean)^2 > 4 * variance`.
- The startup sweep runs once when the program starts (`app.py:944`).
  `Helpers.ClearOldVersionedCacheKeys` models that call on the cache.
- The request flow of `get_trends` uses the quality tier selection as
  written, `QUALITY_VALUES[threshold_index:]`: the threshold tier and every
  worse one (`Api.Validate`, `Api.RowsMeetThreshold`). The evidently
  intended selection is modelled beside it (see "## Findings").
- `int()` skips less white space than `strip()`: space, tab, newline,
  carriage return, vertical tab and form feed, but not the information
  separators `\x1c` to `\x1f`. So `"\x1c1"` is not blank, yet `int()`
  refuses it (`Validators.IsIntSpace`, `Validators.IsValidIntRefusesSeparator`).

## Model

| member | source | states |
|---|---|---|
| PyText.LessIrreflexive | backend/utils/helpers.py:17 | no version text is older than itself under Python's string `<` |
| PyText.LessTransitive | backend/utils/helpers.py:17 | Python's string `<` is transitive |
| PyText.LessTrichotomy | backend/utils/helpers.py:22 | any two version texts are equal or one is older than the other |
| PyText.Split | backend/utils/helpers.py:13 | `str.split` always yields at least one part |
| PyText.SplitJoin | backend/utils/helpers.py:13 | the parts of a split contain no separator, and joining them back with it restores the text |
| PyText.SplitFree | backend/utils/helpers.py:13 | text without the separator splits into itself alone |
| PyText.SplitAt | backend/utils/helpers.py:13 | splitting `a + sep + b` gives the parts of `a` followed by the parts of `b` |
| PyText.JoinSplit | backend/utils/config.py:18 | joining one or more fields free of the separator and splitting again gives back the same fields |
| PyText.LowerChar | backend/app.py:812 | `str.lower` maps an ASCII capital to its small letter and keeps every other character |
| PyText.Lower | backend/app.py:812 | lower-casing keeps the length and works character by character |
| PyText.Strip | backend/utils/validators.py:8 | the stripped text is no longer than the input and neither starts nor ends with whitespace |
| PyText.StripTrimmed | backend/utils/validators.py:8 | text without whitespace at either end is unchanged by `strip` |
| PyText.StripEmpty | backend/utils/validators.py:8 | `str(val).strip() != ""` fails exactly for text made only of whitespace |
| Calendar.DaysInMonth | backend/utils/validators.py:17 | every month has 28 to 31 days, and February has 29 exactly in Gregorian leap years |
| Calendar.OrdinalOrder | backend/app.py:876 | the day ordinal orders dates chronologically, and two dates share an ordinal only if they are equal |
| Calendar.SeasonsPartitionMonths | backend/app.py:897-902 | every month 1..12 lies in exactly one season's months, with December, January and February in winter |
| Validators.TrimLeft | backend/utils/validators.py:8 | cutting the white space `int()` skips at the start leaves a suffix that does not start with it |
| Validators.TrimLeftSkipped | backend/utils/validators.py:8 | what the left trim cuts is white space `int()` skips |
| Validators.TrimRight | backend/utils/validators.py:8 | cutting the white space `int()` skips at the end leaves a prefix that does not end with it |
| Validators.TrimRightSkipped | backend/utils/validators.py:8 | what the right trim cuts is white space `int()` skips |
| Validators.IntTextTrimmed | backend/utils/validators.py:8 | text with no skipped white space at either end is read by `int()` as it stands |
| Validators.DigitRunChars | backend/utils/validators.py:8 | a digit run holds only digits and underscores |
| Validators.ParseDigitRun | backend/utils/validators.py:8 | an unsigned digit run is read as the number it spells |
| Validators.ParseMinusDigitRun | backend/utils/validators.py:8 | a minus sign and a digit run are read as the negated number |
| Validators.ParseUnsigned | backend/utils/validators.py:8 | `int()` reads a run of digits as its decimal value |
| Validators.ParseNegative | backend/utils/validators.py:8 | `int()` reads `-` followed by digits as the negated value |
| Validators.TruncatePositive | backend/utils/helpers.py:40 | `int()` truncates a float toward zero, so `int(r) > 0` holds exactly when `r` is at least 1 |
| Validators.IsValidIntOnNumbers | backend/utils/validators.py:3-10 | under `is_valid_int` (`Validators.IsValidInt`), a decimal numeral is accepted exactly when its value is positive, and a negative numeral is never accepted |
| Validators.IsValidIntOnParsed | backend/utils/validators.py:8 | text that is not blank and that `int()` reads as `k` is accepted exactly when `k > 0` |
| Validators.IsValidIntOnRuns | backend/utils/validators.py:8 | a digit run is accepted exactly when the number it spells is positive |
| Validators.IsValidIntRefusesNegativeRun | backend/utils/validators.py:8 | a digit run after a minus sign is rejected |
| Validators.SeparatorRefused | backend/utils/validators.py:8 | `int()` raises on any text holding an information separator `\x1c`-`\x1f`, wherever it stands, since it neither skips it nor reads it as a sign, digit or underscore |
| Validators.IsValidIntRefusals | backend/utils/validators.py:3-10 | `None`, empty or whitespace-only text, text `int()` cannot read, and text holding an information separator are rejected |
| Validators.IsValidIntRefusesSeparator | backend/utils/validators.py:8 | `"\x1c1"` strips to `"1"`, so it is not blank, yet it is rejected because `int()` raises on it |
| Validators.IsValidIntExamples | backend/tests/test_app.py:110-113 | `"1"` is accepted, and `"0"` and `"-1"` are rejected |
| Validators.IsValidIntRefusesText | backend/utils/validators.py:8 | `"1.5"` is rejected because `int()` raises on it |
| Validators.IsValidIntUnderscores | backend/utils/validators.py:8 | `"1_000"` is accepted, since `int()` reads underscore-grouped digits |
| Validators.ParseDate | backend/utils/validators.py:12-20 | whatever `strptime` accepts names a real calendar date; `is_valid_date` (`Validators.IsValidDate`) holds exactly for text this parse accepts |
| Validators.FormatReadsBack | backend/utils/validators.py:17 | every date with a four-digit year, written as `YYYY-MM-DD`, is accepted and read back as itself |
| Validators.NoMonthNinetyNine | backend/tests/test_app.py:125-128 | `"2025-99-99"` is rejected |
| Validators.LeapDayAccepted | backend/utils/validators.py:17 | February 29 is accepted in every leap year |
| Validators.NoLeapDayExamples | backend/utils/validators.py:17 | February 29 is rejected in 2025 and in 1900 |
| Validators.NotLeapDay | backend/utils/validators.py:17 | February 29 of any year that is not a leap year is rejected |
| Validators.UnpaddedAccepted | backend/utils/validators.py:17 | `strptime` also accepts an unpadded month and day, `"2025-1-5"` |
| Validators.DateRangeIsChronological | backend/utils/validators.py:26 | for `is_valid_date_range` (`Validators.IsValidDateRange`) and two valid dates, the range is accepted exactly when the end is not before the start; equal dates are accepted; a range and its reverse are not both accepted unless the dates are equal |
| Validators.DateRangeNeedsBothEnds | backend/utils/validators.py:24-25 | the range is rejected whenever either end is not a valid date |
| Validators.DateRangeExample | backend/tests/test_app.py:130-133 | 2025-04-15 to 2025-01-01 is rejected, and the forward range is accepted |
| Quality.Rank | backend/utils/constants.py:2 | a tier's rank is its position in `QUALITY_VALUES` |
| Quality.FromName | backend/utils/constants.py:2 | a name is mapped to the tier it names, or to none when no tier has that name |
| Quality.WeightOf | backend/utils/constants.py:5-10 | `QUALITY_WEIGHTS.get(name, 0.0)` lies between 0 and 1 |
| Quality.QualityValuesAreTheTiers | backend/utils/constants.py:2 | there are exactly four distinct tiers, each at the position of its rank |
| Quality.WeightKeysAreTierNames | backend/utils/constants.py:5-10 | a name has a positive weight exactly when it names a tier, so the weight keys are the tier names |
| Quality.WeightsFallAlongTiers | backend/utils/constants.py:6-9 | every weight lies in (0, 1], the top tier weighs 1.0, and weights strictly decrease along the tier order |
| Quality.LowerNames | backend/app.py:812 | `[q.lower() for q in QUALITY_VALUES]`, element by element |
| Quality.IndexOf | backend/app.py:812 | `list.index`: the first position holding the value, or none when no position does |
| Quality.ThresholdIndex | backend/app.py:812 | a threshold has an index exactly when its lower-case form names a tier |
| Quality.IndexOfTier | backend/app.py:812 | a tier's lower-case name is found at the tier's rank |
| Quality.AllowedQualities | backend/app.py:813 | the corrected selection exists exactly for known thresholds and always admits the top tier |
| Quality.AllowedAreThresholdAndBetter | backend/app.py:812-813 | the corrected selection for a tier is the tiers up to it: it admits the threshold tier and exactly the tiers no worse than it |
| Quality.ThresholdExtremes | backend/app.py:812-813 | under the corrected selection (see "## Findings"), `poor` admits all four tiers, `Excellent` only itself; under either selection an unknown threshold has no selection |
| Quality.AsWrittenAdmitsWorseTiers | backend/app.py:812-813 | the slice as written admits the threshold tier and exactly the tiers no better than it: `excellent` admits all four, `poor` only itself |
| Config.GetVersion | backend/utils/config.py:8-13 | the derived-data key gives the data version, the algorithm key the algorithm version, any other key `"1"` |
| Config.CurrentVersions | backend/utils/config.py:5-6 | both version lookups return the current version constants |
| Config.SortParams | backend/utils/config.py:18 | `sorted(args.items())` is ordered and a permutation of the arguments |
| Config.ParamStringSplitsIntoPieces | backend/utils/config.py:18 | for non-empty arguments without `&` in names or values, the parameter text splits at `&` into exactly the sorted `k=v` pieces, one per argument, each the piece of a given argument |
| Config.KeyIgnoresArgumentOrder | backend/utils/config.py:18 | two argument lists with the same pairs give the same key, whatever their order |
| Config.EmptyArguments | backend/utils/config.py:18-19 | no arguments give `endpoint::data_ver=D:algo_ver=A` |
| Config.KeyParts | backend/utils/config.py:15-19 | the key `get_versioned_cache_key` builds (`Config.VersionedCacheKey`) is `endpoint:param_str:data_ver=D:algo_ver=A`; its `:`-separated parts are the endpoint's, the parameter text's, then `data_ver=D` and `algo_ver=A` |
| Config.KeyDeterminesVersions | backend/utils/config.py:19 | for the same endpoint and arguments, and data versions without `:`, different versions give different keys |
| Config.KeyCarriesBothTags | backend/utils/config.py:19 | every generated key contains `data_ver=` and `algo_ver=` |
| Helpers.SimpleCache.constructor | backend/utils/helpers.py:7 | a new cache is empty |
| Helpers.SimpleCache.Set | backend/app.py:936 | `cache.set` stores the value under the key and changes no other key |
| Helpers.SimpleCache.Delete | backend/utils/helpers.py:26 | `cache.delete` removes the key, reports whether it was there, and changes no other key |
| Helpers.TagValue | backend/utils/helpers.py:16 | `part.split("=")[1]` is the text after the tag up to the next `=` |
| Helpers.ScanKey | backend/utils/helpers.py:12-24 | the inner scan queues a key exactly when it is stale (`Helpers.IsStale`): it has a tag, and some part carries a data or algorithm version older than the current one |
| Helpers.StaleKeys | backend/utils/helpers.py:10-24 | `keys_to_delete` holds every stale stored key and nothing else, each once |
| Helpers.ClearOldVersionedCacheKeys | backend/utils/helpers.py:1-26 | after the sweep the cache holds exactly the entries that were not stale, with their values (`Helpers.Swept` of the old store) |
| Helpers.ClearForeverCacheKeys | backend/utils/helpers.py:28-33 | exactly `locations` and `metrics` are removed |
| Helpers.ForeverKeysSurviveSweep | backend/utils/helpers.py:12 | `locations` and `metrics` survive the sweep with their values |
| Helpers.UntaggedKeysSurviveSweep | backend/utils/helpers.py:12 | a key with neither tag survives the sweep with its value |
| Helpers.GeneratedKeyParts | backend/utils/helpers.py:13 | a generated key whose endpoint and parameter text hold no `:` splits into exactly four parts |
| Helpers.TagPartStale | backend/utils/helpers.py:15-22 | a tag part is stale exactly when its version is older than the current one |
| Helpers.GeneratedKeySweptIffOlder | backend/utils/helpers.py:13-24 | a generated key is swept exactly when its data or algorithm version is older, as text, than the current one |
| Helpers.OwnVersionsSurviveSweep | backend/utils/helpers.py:17-22 | a key generated with the sweep's own versions is not stale |
| Helpers.CurrentKeySurvivesSweep | backend/utils/helpers.py:17-22 | a key generated with the current versions survives the sweep with its value |
| Helpers.VersionsCompareAsText | backend/utils/helpers.py:17 | versions compare as text: a key at version `9` survives a sweep at `10`, and one at `10` is swept at `9` |
| Helpers.ArgumentMimicsTag | backend/utils/helpers.py:12-17 | a request argument whose text reads `data_ver=v`, with `v` older than the current version, makes its current key stale |
| Helpers.ArgumentMimicsTagExample | backend/utils/helpers.py:12-17 | the current key of `trends?data_ver=0` is swept |
| Helpers.IsValidIdOnJsonValues | backend/utils/helpers.py:40 | a float passes `int(val) > 0` exactly when it is at least 1, and a boolean exactly when it is `True` |
| Helpers.IsValidIdAcceptance | backend/utils/helpers.py:35-42 | `is_valid_id` (`Helpers.IsValidId`) accepts a decimal numeral exactly when it is positive, and rejects negatives, `None`, whitespace, unreadable text, text holding an information separator, `"1.5"` and `"\x1c1"`; a JSON float passes exactly when it is at least 1 (`1.5` passes, truncated to 1; `0.5` fails) and a JSON boolean exactly when it is `true` |
| Stats.Min | backend/app.py:611 | `min(values)` is one of the values and no value is smaller |
| Stats.Max | backend/app.py:612 | `max(values)` is one of the values and no value is larger |
| Stats.MeanWithinRange | backend/app.py:611-613 | the mean lies between the minimum and the maximum |
| Stats.VarianceNonNegative | backend/app.py:884 | the population variance is never negative |
| Stats.SxxZeroIffConstant | backend/app.py:884 | the spread of a series is zero exactly when all its values are equal |
| Stats.SlopeOfLine | backend/app.py:879 | for readings on a line `a * x + b`, over at least two distinct dates, the slope is `a` |
| Stats.SlopeOfConstant | backend/app.py:879 | a constant series over at least two distinct dates has slope 0 |
| Stats.SlopeOfOneDate | backend/app.py:879 | when all dates coincide at ordinal `c`, the slope is `mean / (2 * c)`, so it has the sign of the mean value |
| Stats.FewOutliers | backend/app.py:893 | fewer than a quarter of the values lie more than two standard deviations from the mean |
| Summary.RowWeight | backend/app.py:590 | a row's weight, `QUALITY_WEIGHTS.get(quality.lower(), 0.0)`, lies in [0, 1] |
| Summary.RowWeightIsAWeight | backend/app.py:590 | a row weighs more than zero exactly when its lower-cased quality names a tier |
| Summary.BumpKeys | backend/app.py:601 | counting a quality keeps one entry per quality and adds an entry only for that quality |
| Summary.BumpCount | backend/app.py:601 | counting a quality raises its count by one and leaves every other count unchanged |
| Summary.FoldValues | backend/app.py:599 | a metric's `values` are its rows' values, in row order, and its unit is the one the entry was opened with |
| Summary.FoldCounts | backend/app.py:601 | the `qualities` tally has a key exactly for each quality that occurs, counting its occurrences |
| Summary.FoldCountTotal | backend/app.py:601 | the tally's counts add up to the number of rows |
| Summary.FoldTotalWeight | backend/app.py:607 | `total_weight`, summed over the tally, equals the sum of the rows' weights |
| Summary.FoldWeightedSum | backend/app.py:600 | the sum of `weighted_values` is the dot product of values and weights |
| Summary.Accumulate | backend/app.py:584-601 | the accumulation loop gives an entry exactly for each metric that has rows, built from that metric's rows in order |
| Summary.SummarizeAll | backend/app.py:603-624 | every accumulated metric gets its summary, and no other metric appears |
| Summary.Summarize | backend/app.py:584-624 | `summary_data` has an entry exactly for each metric with rows, summarising that metric's rows (`Summary.SummaryOf` of its accumulated entry) |
| Summary.SummaryBounds | backend/app.py:611-614 | min, max and mean are present, min ≤ mean ≤ max, min and max are values of the rows, and every value lies between them; the unit is the first row's |
| Summary.DistributionIsFractions | backend/app.py:618-623 | each quality's share is a fraction in (0, 1], listed in tally order |
| Summary.DistributionSumsToOne | backend/app.py:618-623 | the shares of the quality distribution add up to 1 |
| Summary.QualityShares | backend/app.py:618-623 | the distribution has one entry per quality that occurs, holding its number of rows over all rows; the shares are in (0, 1] and add up to 1 |
| Summary.WeightedMean | backend/app.py:607-617 | `weighted_avg` is present exactly when the total weight is positive, exactly when some row has positive weight, and equals Σ(v·w)/Σw |
| Summary.WeightedMeanWithinRange | backend/app.py:608 | the weighted mean lies between the minimum and the maximum |
| Trends.GroupByMetric | backend/app.py:845-853 | the grouping loop gives an entry exactly for each metric with rows, holding that metric's readings in row order |
| Trends.SeriesFromRows | backend/app.py:845-853 | every point of a metric's series comes from a row of that metric |
| Trends.SeriesKeepDateOrder | backend/app.py:845-853 | rows in date order give every metric's series in date order |
| Trends.DirectionOf | backend/app.py:880 | the direction is increasing iff the slope is positive, decreasing iff negative, and stable iff zero |
| Trends.Confidence | backend/app.py:917 | `min(1, n/30)` lies in [0, 1], is 1 from 30 readings on, and is n/30 below that |
| Trends.AbsDiff | backend/app.py:889 | the deviation is the non-negative distance between value and mean |
| Trends.GroupBySeason | backend/app.py:903-906 | the season loop puts every reading's value in the group of its month's season |
| Trends.BuildPattern | backend/app.py:907-914 | the pattern loop gives every non-empty season its average and last-against-first trend |
| Trends.AnalyzeMetric | backend/app.py:857-933 | the entry built for one metric is the analysis of its series (`Trends.Analysis`: the no-signal entry below two readings, otherwise trend, anomalies and seasonality) |
| Trends.AnalyzeAll | backend/app.py:855-933 | every grouped metric gets its analysis, under its unit, and no other metric appears |
| Trends.ComputeTrends | backend/app.py:845-933 | `trends_data` has an entry exactly for each metric with rows, analysing that metric's series |
| Trends.ShortSeriesHasNoSignal | backend/app.py:857-873 | fewer than two readings give no direction, no rate, the metric's unit, confidence 0, no anomalies, and seasonality not detected, with no period, confidence 0 and an empty pattern |
| Trends.ConfidenceGrows | backend/app.py:924 | more readings never lower the confidence |
| Trends.DirectionIsSignOfRate | backend/app.py:879-881 | with two or more readings, a rate is reported, the direction is the sign of that rate, and the confidence is min(1, n/30) |
| Trends.LineHasItsSlope | backend/app.py:879-881 | readings on a line over distinct dates report that line's slope as their rate, and an increasing direction when it rises |
| Trends.LevelSeriesIsStable | backend/app.py:879-894 | a constant series over distinct dates has rate 0, a stable direction and no anomalies |
| Trends.NoFarValues | backend/app.py:893 | in a constant series no value is far from the mean |
| Trends.OutliersSelect | backend/app.py:892-893 | the selected positions are exactly the readings far from the mean, in increasing order |
| Trends.AnomaliesAreFarReadings | backend/app.py:885-894 | a reading is reported as an anomaly exactly when it lies more than two standard deviations from the mean |
| Trends.AnomaliesDeviateFar | backend/app.py:889-893 | every anomaly's deviation is non-negative and its square exceeds four times the variance |
| Trends.AnomaliesInReadingOrder | backend/app.py:885-894 | anomalies are listed in the order of their readings |
| Trends.FewAnomalies | backend/app.py:885-894 | fewer than a quarter of a series' readings are anomalies |
| Trends.SeasonGroupsHoldEveryReading | backend/app.py:903-906 | the season groups together hold every reading once, so their sizes add up to n |
| Trends.SeasonHasValues | backend/app.py:903-909 | a season's group is non-empty exactly when some reading falls in that season |
| Trends.SeasonTrend | backend/app.py:911-913 | a season's trend is increasing, decreasing or stable exactly as its last value is above, below or equal to its first, so one value gives a stable trend |
| Trends.PatternEntry | backend/app.py:908-914 | a season's pattern entry is the mean and the trend of that season's values, and exists only for a season with values |
| Trends.SeasonalityOfSeries | backend/app.py:907-930 | with two or more readings, seasonality is detected with a yearly period, its confidence equals the trend's, and the pattern has an entry exactly for each season some reading falls in, with that season's mean and a trend that rises exactly when its last value exceeds its first, falls exactly when it is below it, and is stable for a season with one value |
| Trends.SeasonalityOfReadings | backend/app.py:915-917 | seasonality confidence is min(1, n/30) because the groups hold all n readings |
| Trends.TrendsFollowRows | backend/app.py:845-853 | each metric's series follows its rows, in date order when the rows are |
| Api.Arg | backend/app.py:771-775 | `args.get(name)` is present exactly when some argument has that name, and its value is one of that name's values |
| Api.ArgAt | backend/app.py:771-775 | `args.get` returns the value of the first argument with that name |
| Api.Units | backend/app.py:822-826 | `metric_units.get(name)` is the catalogue's unit for a listed metric, and none for a metric that is unlisted or has no unit |
| Api.Checks | backend/app.py:777-794 | there are six checks, in the source's order |
| Api.FirstFailure | backend/app.py:777-794 | no check is reported exactly when all pass; otherwise the one reported fails and every check before it passes |
| Api.FirstFailureAt | backend/app.py:777-794 | a failing check preceded only by passing checks is the one reported |
| Api.Validate | backend/app.py:777-815 | a request is accepted exactly when all six checks pass; a rejection carries the message of a failing check before which every check passes |
| Api.ReportsCheck | backend/app.py:777-794 | whatever the later checks say, the first failure is the one reported |
| Api.LocationReported | backend/app.py:778-779 | a given `location_id` that is not a positive integer is rejected with its message |
| Api.StartReported | backend/app.py:780-781 | a given `start_date` that is not a date is rejected next, with its message |
| Api.EndReported | backend/app.py:782-783 | a given `end_date` that is not a date is rejected next, with its message |
| Api.RangeReported | backend/app.py:784-785 | a reversed range is rejected next, with its message |
| Api.ThresholdReported | backend/app.py:786-787 | an unknown `quality_threshold` is rejected next, with its message |
| Api.MetricReported | backend/app.py:788-794 | a `metric` the catalogue lacks, case-insensitively, is rejected last, with its message |
| Api.PassingRequestAccepted | backend/app.py:777-794 | a request passing all six checks is accepted |
| Api.AcceptedFilterIsValid | backend/app.py:796-815 | an accepted request filters on exactly the arguments given, each holding the value it parsed to: a positive location, calendar dates in order, a catalogued metric, and for a threshold tier exactly the tiers no better than it, as the slice is written |
| Api.BlankArgumentsFilterNothing | backend/app.py:778-815 | arguments that are all empty, or no arguments at all, are accepted and filter nothing |
| Api.ReversedRangeFails | backend/app.py:780-785 | two readable dates with the end before the start pass the date checks and fail the range check |
| Api.NegativeLocationRejected | backend/tests/test_app.py:110-113 | `location_id=-1` is rejected with the location message |
| Api.LocationOneAccepted | backend/tests/test_app.py:105-108 | `location_id=1` is accepted and filters on location 1 only |
| Api.UnknownMetricTest | backend/tests/test_app.py:115-118 | `metric=invalid_metric` is rejected with the metric message when the catalogue lacks it |
| Api.UnknownThresholdTest | backend/tests/test_app.py:120-123 | `quality_threshold=badquality` is rejected with the threshold message |
| Api.BadStartDateTest | backend/tests/test_app.py:125-128 | `start_date=2025-99-99` is rejected with the start-date message |
| Api.ReversedRangeTest | backend/tests/test_app.py:130-133 | `start_date=2025-04-15&end_date=2025-01-01` is rejected with the range message |
| Api.Query | backend/app.py:828-843 | the query returns no more rows than the table holds |
| Api.Kept | backend/app.py:796-843 | the kept positions are positions of the table |
| Api.KeptSelect | backend/app.py:796-815 | the kept positions are exactly those of the readings that pass the filter (`Api.Matches`: each given argument's condition), in strictly increasing order |
| Api.QueryIsKeptRows | backend/app.py:796-843 | the query is exactly the rows of the kept readings, each once and in table order: its `k`-th row is that of the `k`-th kept position, kept positions strictly increase, and a position is kept exactly when its reading passes the filter |
| Api.QuerySound | backend/app.py:796-843 | every returned row is the row of a reading that passes the filter |
| Api.QueryComplete | backend/app.py:796-843 | every reading that passes the filter is returned |
| Api.QueryKeepsDateOrder | backend/app.py:837 | a table held in date order gives rows in date order |
| Api.RowsMeetThreshold | backend/app.py:811-815 | under a threshold tier, every returned row's quality is that tier or a worse one, as the slice is written |
| Api.TrendsOf | backend/app.py:845-933 | the trends have an entry exactly for each metric with rows, analysing its series under its unit |
| Api.SelectedTrends | backend/app.py:845-933 | a metric is reported exactly when one of its readings passes the filter, and its selected readings are analysed in date order |
| Api.AnswerDescribesReadings | backend/app.py:777-938 | for the answer to a request (`Api.Answer`), a rejected request answers 400 with its message; an accepted one answers 200 with an entry exactly for each metric with a selected reading, analysed in date order |
| Api.GetTrends | backend/app.py:765-938 | a cache hit returns the stored trends and changes nothing; a miss returns the computed answer and stores a 200 answer under the request's key for 600 seconds |
| Api.RepeatedRequest | backend/app.py:765-769 | making the same request twice gives the same answer |

## Left out

- Flask plumbing is not modelled: routing, `jsonify`, Swagger docstrings, CORS and rate limiting. They hold no logic of the core. The HTTP status is kept as a number in `Api.Response`.
- SQL text and the MySQL cursor are not modelled. The query is the filter it expresses (`Api.Matches`) applied to the table as a sequence of readings.
- MySQL compares the `location_id` and date arguments as text cast to an integer or a date. The model compares the values `int()` and `strptime` read from them.
- `ORDER BY c.date ASC` is not modelled as a sort. The lemmas that speak of date order (`Api.QueryKeepsDateOrder`, `Api.SelectedTrends`, `Api.AnswerDescribesReadings`) require the table to be held in date order (`Api.ReadingsInDateOrder`). `Api.Answer`, `Api.GetTrends` and `Api.RepeatedRequest` do not, so they match the source only for a date-ordered table: on another table the rows are analysed in table order, which can change the order of the anomaly list and each season's last-against-first trend.
- numpy and IEEE floating point are not modelled. Values are reals, and `np.polyfit`, `np.mean` and `np.std` are the exact formulas. Rounding, and numpy's warnings on a singular fit, are not captured.
- The cache's wall-clock expiry, thread safety and the `flask_caching` backend are not modelled. An entry records its timeout but never expires.
- `get_climate_data`, `get_summary` request validation, `get_locations` and `get_metrics` are not modelled end to end. Only `get_trends`'s request flow is. `get_summary`'s aggregation loop and its tier selection are modelled.
- `Summary.Summarize`: the aggregation lemmas hold for any non-negative weight function. `Summary.RowWeight`, the endpoint's own weight, is the one `Summarize` uses.
- The exception branch of `get_trends` (a 500 answer) is not modelled. In the model no step raises.
- `logger.py` and every logging call are not modelled; they are file I/O.
- `seed_db.py` is not modelled. Its skip rules reuse `is_valid_id` and tier membership, which are modelled; `is_valid_id` is handed the JSON values `json.load` gives, so `Validators.PyValue` carries finite floats and booleans.
- Helpers.IsValidIdAcceptance: a JSON `1e400` or `Infinity` loads as an infinite float, on which `int()` raises `OverflowError`; `is_valid_id` does not catch it, so seeding aborts. `PyFloat` holds only finite reals, so this crash is not modelled.
- Duplicate request arguments are not modelled. `Api.Arg` takes the first value, as `MultiDict.get` does. `Config.VersionedCacheKey` uses every pair, which matches `args.items()` only when names are distinct.
- The iteration order of Python dictionaries is not modelled. Result maps are unordered, and `Summary.Distribution` follows the tally's order of first occurrence.
- `strftime` of a year below 1000 is not modelled. `Validators.Format` always writes four digits.
- Unicode case folding is not modelled. `PyText.Lower` lowers ASCII letters only, and `PyText.IsSpace` covers the ASCII whitespace characters.
- Validators.ParseInt: reads ASCII digits only. Python's `int()` also reads other Unicode decimal digits (such as Arabic-Indic digits) and skips non-ASCII white space; those are not modelled, because the model's text is ASCII-minded.
- Validators.IsValidInt: inherits that restriction, so text of non-ASCII digits that `int()` would read is rejected by the model.
- Validators.ParseDate: reads ASCII digits only, while `strptime`'s `\d` also matches other Unicode decimal digits; not modelled, for the same reason.

## Findings

| source | as written | input that shows it | evidently intended | confidence | as-written member | corrected member |
|---|---|---|---|---|---|---|
| backend/app.py:812-813 | `QUALITY_VALUES[threshold_index:]` (also at 211-212 and 559-560) admits the threshold tier and every WORSE tier | `quality_threshold=excellent` admits `poor` rows; `quality_threshold=poor` admits only `poor` | the threshold as a minimum quality, `QUALITY_VALUES[:threshold_index + 1]`: the tier and every better one | not executed | Quality.AsWrittenAdmitsWorseTiers | Quality.AllowedAreThresholdAndBetter |

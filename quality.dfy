/** The quality tiers of an observation (`QUALITY_VALUES`), their weights
    (`QUALITY_WEIGHTS`) and the selection of the tiers a `quality_threshold`
    admits. */
module Quality {
  import opened Wrappers
  import opened PyText

  datatype Quality = Excellent | Good | Questionable | Poor

  /** `QUALITY_VALUES`, best tier first. */
  const QualityValues: seq<Quality> := [Excellent, Good, Questionable, Poor]

  /** The spelling of a tier in `QUALITY_VALUES` and in the database. */
  function Name(q: Quality): string
  {
    match q
    case Excellent => "excellent"
    case Good => "good"
    case Questionable => "questionable"
    case Poor => "poor"
  }

  /** Position of a tier in `QUALITY_VALUES`: 0 is the best. */
  function Rank(q: Quality): (r: nat)
    ensures r < |QualityValues| && QualityValues[r] == q
  {
    match q
    case Excellent => 0
    case Good => 1
    case Questionable => 2
    case Poor => 3
  }

  /** `QUALITY_WEIGHTS[Name(q)]` */
  function Weight(q: Quality): real
  {
    match q
    case Excellent => 1.0
    case Good => 0.8
    case Questionable => 0.5
    case Poor => 0.3
  }

  /** The tier spelled exactly `name`, if any. */
  function FromName(name: string): (r: Option<Quality>)
    ensures r.Some? ==> Name(r.value) == name
    ensures r.None? ==> forall q :: Name(q) != name
  {
    if name == "excellent" then Some(Excellent)
    else if name == "good" then Some(Good)
    else if name == "questionable" then Some(Questionable)
    else if name == "poor" then Some(Poor)
    else None
  }

  /** `QUALITY_WEIGHTS.get(name, 0.0)` */
  function WeightOf(name: string): (w: real)
    ensures 0.0 <= w <= 1.0
  {
    match FromName(name)
    case Some(q) => Weight(q)
    case None => 0.0
  }

  /** `QUALITY_VALUES` lists four distinct tiers, each at its rank. */
  lemma QualityValuesAreTheTiers()
    ensures |QualityValues| == 4
    ensures forall i, j :: 0 <= i < j < |QualityValues| ==> QualityValues[i] != QualityValues[j]
    ensures forall q :: q in QualityValues && QualityValues[Rank(q)] == q
  {
    forall q ensures q in QualityValues {
      assert QualityValues[Rank(q)] == q;
    }
  }

  /** `QUALITY_WEIGHTS` has exactly the names in `QUALITY_VALUES` as keys:
      a name has a positive weight exactly when it spells a tier. */
  lemma WeightKeysAreTierNames(name: string)
    ensures WeightOf(name) > 0.0 <==> exists q :: q in QualityValues && Name(q) == name
  {
    match FromName(name)
    case Some(q) =>
      assert q in QualityValues;
    case None =>
  }

  /** The weights lie in (0, 1], the best tier weighs 1.0, and they fall
      strictly along the tier order. */
  lemma WeightsFallAlongTiers()
    ensures forall q :: 0.0 < Weight(q) <= 1.0
    ensures Weight(QualityValues[0]) == 1.0
    ensures forall i, j :: 0 <= i < j < |QualityValues| ==> Weight(QualityValues[i]) > Weight(QualityValues[j])
  {
  }

  /** `[q.lower() for q in QUALITY_VALUES]` */
  function LowerNames(qs: seq<Quality>): (r: seq<string>)
    ensures |r| == |qs|
    ensures forall i :: 0 <= i < |qs| ==> r[i] == Lower(Name(qs[i]))
  {
    seq(|qs|, i requires 0 <= i < |qs| => Lower(Name(qs[i])))
  }

  /** `xs.index(x)`, with `None` where Python raises `ValueError`. */
  function IndexOf(xs: seq<string>, x: string): (r: Option<nat>)
    ensures r.Some? ==> r.value < |xs| && xs[r.value] == x && forall k :: 0 <= k < r.value ==> xs[k] != x
    ensures r.None? ==> forall k :: 0 <= k < |xs| ==> xs[k] != x
    decreases |xs|
  {
    if |xs| == 0 then None
    else if xs[0] == x then Some(0)
    else match IndexOf(xs[1..], x)
      case None => None
      case Some(k) => Some(k + 1)
  }

  /** The test `quality_threshold.lower() in [q.lower() for q in QUALITY_VALUES]`. */
  predicate IsKnownThreshold(threshold: string)
  {
    Lower(threshold) in LowerNames(QualityValues)
  }

  /** The case-insensitive position of a known threshold in `QUALITY_VALUES`. */
  function ThresholdIndex(threshold: string): (r: Option<nat>)
    ensures r.Some? <==> IsKnownThreshold(threshold)
    ensures r.Some? ==> r.value < |QualityValues|
  {
    IndexOf(LowerNames(QualityValues), Lower(threshold))
  }

  /** `QUALITY_VALUES[threshold_index:]` exactly as the endpoints compute it:
      the threshold tier and every WORSE tier. `None` for a name that is not a
      tier (there `index` raises, which validation rules out first). */
  function AllowedQualitiesAsWritten(threshold: string): (r: Option<seq<Quality>>)
    ensures r.Some? <==> IsKnownThreshold(threshold)
    ensures r.Some? ==> r.value == QualityValues[ThresholdIndex(threshold).value..]
  {
    match ThresholdIndex(threshold)
    case None => None
    case Some(i) => Some(QualityValues[i..])
  }

  /** The tiers a minimum-quality threshold is meant to admit: the threshold
      tier and every better one, `QUALITY_VALUES[:threshold_index + 1]`. */
  function AllowedQualities(threshold: string): (r: Option<seq<Quality>>)
    ensures r.Some? <==> IsKnownThreshold(threshold)
    ensures r.Some? ==> |r.value| >= 1 && QualityValues[0] in r.value
  {
    match ThresholdIndex(threshold)
    case None => None
    case Some(i) => Some(QualityValues[..i + 1])
  }

  lemma LowerOfName(q: Quality)
    ensures Lower(Name(q)) == Name(q)
  {
    var n := Name(q);
    assert forall i :: 0 <= i < |n| ==> !IsUpper(n[i]);
  }

  lemma LowerTierNames()
    ensures LowerNames(QualityValues) == [Name(Excellent), Name(Good), Name(Questionable), Name(Poor)]
  {
    LowerOfName(Excellent);
    LowerOfName(Good);
    LowerOfName(Questionable);
    LowerOfName(Poor);
  }

  /** The case-insensitive position of a tier's name is its rank. */
  lemma IndexOfTier(t: Quality)
    ensures IndexOf(LowerNames(QualityValues), Name(t)) == Some(Rank(t))
  {
    LowerTierNames();
    var names := LowerNames(QualityValues);
    assert names[0] == "excellent" && names[1] == "good" && names[2] == "questionable" && names[3] == "poor";
    assert names[0][0] == 'e' && names[1][0] == 'g' && names[2][0] == 'q' && names[3][0] == 'p';
    assert Name(t)[0] == names[Rank(t)][0];
    assert forall k :: 0 <= k < Rank(t) ==> names[k][0] != Name(t)[0];
  }

  /** A known threshold admits exactly its own tier and every better one, in
      `QUALITY_VALUES` order, whatever the case of its spelling. */
  lemma AllowedAreThresholdAndBetter(threshold: string, t: Quality)
    requires Lower(threshold) == Name(t)
    ensures AllowedQualities(threshold) == Some(QualityValues[..Rank(t) + 1])
    ensures forall q :: q in AllowedQualities(threshold).value <==> Rank(q) <= Rank(t)
    ensures t in AllowedQualities(threshold).value
  {
    IndexOfTier(t);
    var allowed := QualityValues[..Rank(t) + 1];
    forall q ensures q in allowed <==> Rank(q) <= Rank(t) {
      if Rank(q) <= Rank(t) {
        assert allowed[Rank(q)] == q;
      }
    }
  }

  /** "poor" admits all four tiers, "Excellent" only itself, and a name that
      is no tier admits nothing. */
  lemma ThresholdExtremes()
    ensures AllowedQualities("poor") == Some(QualityValues)
    ensures AllowedQualities("Excellent") == Some([Excellent])
    ensures AllowedQualities("badquality") == None
  {
    LowerOfName(Poor);
    AllowedAreThresholdAndBetter("poor", Poor);
    assert QualityValues[..Rank(Poor) + 1] == QualityValues;
    assert Lower("Excellent") == "excellent";
    AllowedAreThresholdAndBetter("Excellent", Excellent);
    assert QualityValues[..Rank(Excellent) + 1] == [Excellent];
    LowerTierNames();
    var bad := Lower("badquality");
    assert bad[0] == 'b';
    assert !IsKnownThreshold("badquality");
  }

  /** As written, the selection runs the wrong way along the tiers: the
      threshold and every worse tier. So "excellent", the strictest minimum,
      admits "poor" readings, and "poor" admits nothing better than "poor". */
  lemma AsWrittenAdmitsWorseTiers(threshold: string, t: Quality)
    requires Lower(threshold) == Name(t)
    ensures AllowedQualitiesAsWritten(threshold) == Some(QualityValues[Rank(t)..])
    ensures forall q :: q in AllowedQualitiesAsWritten(threshold).value <==> Rank(q) >= Rank(t)
    ensures AllowedQualitiesAsWritten("excellent") == Some(QualityValues)
    ensures AllowedQualitiesAsWritten("poor") == Some([Poor])
  {
    IndexOfTier(t);
    IndexOfTier(Excellent);
    IndexOfTier(Poor);
    var allowed := QualityValues[Rank(t)..];
    forall q ensures q in allowed <==> Rank(q) >= Rank(t) {
      if Rank(q) >= Rank(t) {
        assert allowed[Rank(q) - Rank(t)] == q;
      }
    }
  }
}

/** The cache helpers: the in-memory cache the API runs on, the startup sweep
    that drops entries cached under an older data or algorithm version, the
    clearing of the two entries cached forever, and `is_valid_id`. */
module Helpers {
  import opened Wrappers
  import opened PyText
  import opened Config
  import opened Validators

  /** A stored value with the timeout (in seconds, 0 for never) it was set
      with. */
  datatype Entry<V> = Entry(value: V, timeout: int)

  /** `flask_caching`'s `SimpleCache`, reduced to its key-to-entry
      dictionary. */
  class SimpleCache<V> {
    var store: map<string, Entry<V>>

    constructor ()
      ensures store == map[]
    {
      store := map[];
    }

    /** `cache.get(key)`: the stored value, or `None` for a missing key. */
    function Get(key: string): Option<V>
      reads this
    {
      if key in store then Some(store[key].value) else None
    }

    /** `cache.set(key, value, timeout=...)` */
    method Set(key: string, value: V, timeout: int)
      modifies this
      ensures store == old(store)[key := Entry(value, timeout)]
      ensures Get(key) == Some(value)
      ensures forall k :: k != key ==> Get(k) == old(Get(k))
    {
      store := store[key := Entry(value, timeout)];
    }

    /** `cache.delete(key)`: reports whether the key was there. */
    method Delete(key: string) returns (existed: bool)
      modifies this
      ensures store == old(store) - {key}
      ensures existed <==> key in old(store)
      ensures Get(key) == None
      ensures forall k :: k != key ==> Get(k) == old(Get(k))
    {
      existed := key in store;
      store := store - {key};
    }
  }

  // ---------------------------------------------------------------------
  // `clear_old_versioned_cache_keys`

  predicate HasTag(part: string)
  {
    StartsWith(part, "data_ver=") || StartsWith(part, "algo_ver=")
  }

  /** A nine-character tag ending in `=` splits off as its own field. */
  lemma TagSplit(part: string, tag: string)
    requires tag == "data_ver=" || tag == "algo_ver="
    requires StartsWith(part, tag)
    ensures Split(part, '=') == [tag[..8]] + Split(part[9..], '=')
  {
    var name := tag[..8];
    assert Free(name, '=');
    assert part == name + ['='] + part[9..];
    SplitAt(name, '=', part[9..]);
    SplitFree(name, '=');
  }

  /** `part.split("=")[1]` for a tagged part: the text after the tag, up to
      the next `=`. */
  function TagValue(part: string): (v: string)
    requires HasTag(part)
    ensures v == Split(part[9..], '=')[0]
    ensures Free(v, '=')
  {
    TagSplit(part, part[..9]);
    SplitJoin(part[9..], '=');
    Split(part, '=')[1]
  }

  lemma TagValueOf(tag: string, v: string)
    requires tag == "data_ver=" || tag == "algo_ver="
    requires Free(v, '=')
    ensures HasTag(tag + v) && TagValue(tag + v) == v
  {
    var part := tag + v;
    assert part[..9] == tag;
    assert part[9..] == v;
    SplitFree(v, '=');
  }

  /** The test the inner loop applies to one `:`-separated part. */
  predicate StalePart(part: string, dataVer: string, algoVer: string)
  {
    (StartsWith(part, "data_ver=") && Less(TagValue(part), dataVer))
    || (StartsWith(part, "algo_ver=") && Less(TagValue(part), algoVer))
  }

  /** A key the sweep deletes: it mentions a version tag, and one of its
      parts carries a data version or an algorithm version that is smaller,
      as Python orders strings, than the current one. */
  predicate IsStale(key: string, dataVer: string, algoVer: string)
  {
    (Contains(key, "data_ver=") || Contains(key, "algo_ver="))
    && var parts := Split(key, ':');
       exists i :: 0 <= i < |parts| && StalePart(parts[i], dataVer, algoVer)
  }

  /** The store after the sweep: exactly the entries that are not stale,
      with their values. */
  function Swept<T>(store: map<string, T>, dataVer: string, algoVer: string): map<string, T>
  {
    map k | k in store && !IsStale(k, dataVer, algoVer) :: store[k]
  }

  /** One pass of the outer loop: scan the key's parts in order and stop at
      the first stale one. */
  method ScanKey(key: string, dataVer: string, algoVer: string) returns (stale: bool)
    ensures stale == IsStale(key, dataVer, algoVer)
  {
    stale := false;
    if Contains(key, "data_ver=") || Contains(key, "algo_ver=") {
      var parts := Split(key, ':');
      var i := 0;
      while i < |parts|
        invariant 0 <= i <= |parts|
        invariant !stale
        invariant forall j :: 0 <= j < i ==> !StalePart(parts[j], dataVer, algoVer)
      {
        var part := parts[i];
        if StartsWith(part, "data_ver=") {
          var ver := TagValue(part);
          if Less(ver, dataVer) {
            stale := true;
            break;
          }
        }
        if StartsWith(part, "algo_ver=") {
          var ver := TagValue(part);
          if Less(ver, algoVer) {
            stale := true;
            break;
          }
        }
        i := i + 1;
      }
    }
  }

  /** The scan that fills `keys_to_delete`: every stale key of the store,
      each exactly once. Nothing is deleted while it runs. */
  method StaleKeys<T>(store: map<string, T>, dataVer: string, algoVer: string) returns (keysToDelete: seq<string>)
    ensures forall i, j :: 0 <= i < j < |keysToDelete| ==> keysToDelete[i] != keysToDelete[j]
    ensures forall k :: k in keysToDelete <==> k in store && IsStale(k, dataVer, algoVer)
  {
    keysToDelete := [];
    var remaining := store.Keys;
    while remaining != {}
      invariant remaining <= store.Keys
      invariant forall i, j :: 0 <= i < j < |keysToDelete| ==> keysToDelete[i] != keysToDelete[j]
      invariant forall k :: k in keysToDelete <==> k in store && k !in remaining && IsStale(k, dataVer, algoVer)
      decreases |remaining|
    {
      var key :| key in remaining;
      var stale := ScanKey(key, dataVer, algoVer);
      if stale {
        keysToDelete := keysToDelete + [key];
      }
      remaining := remaining - {key};
    }
  }

  /** `clear_old_versioned_cache_keys(cache)`: collect the stale keys under
      the configured versions, then delete them. */
  method ClearOldVersionedCacheKeys<V>(cache: SimpleCache<V>)
    modifies cache
    ensures cache.store == Swept(old(cache.store), DerivedDataVersion, AlgoVersion)
  {
    var keysToDelete := StaleKeys(cache.store, DerivedDataVersion, AlgoVersion);
    var i := 0;
    while i < |keysToDelete|
      invariant 0 <= i <= |keysToDelete|
      invariant forall k :: k in cache.store <==> k in old(cache.store) && k !in keysToDelete[..i]
      invariant forall k :: k in cache.store ==> cache.store[k] == old(cache.store)[k]
    {
      assert keysToDelete[..i + 1] == keysToDelete[..i] + [keysToDelete[i]];
      var existed := cache.Delete(keysToDelete[i]);
      i := i + 1;
    }
    assert keysToDelete[..i] == keysToDelete;
    var swept := Swept(old(cache.store), DerivedDataVersion, AlgoVersion);
    assert cache.store.Keys == swept.Keys;
  }

  /** `clear_forever_cache_keys(cache)` */
  method ClearForeverCacheKeys<V>(cache: SimpleCache<V>)
    modifies cache
    ensures cache.store == old(cache.store) - {"locations", "metrics"}
  {
    var existed := cache.Delete("locations");
    existed := cache.Delete("metrics");
    assert cache.store == old(cache.store) - {"locations", "metrics"};
  }

  // ---------------------------------------------------------------------
  // What the sweep keeps and deletes

  /** Text shorter than a pattern, or as long but different, does not
      contain it. */
  lemma {:induction false} ShortTextLacks(s: string, p: string)
    requires |s| <= |p| && s != p
    ensures !Contains(s, p)
    decreases |s|
  {
    if |s| > 0 {
      ShortTextLacks(s[1..], p);
    }
  }

  /** The two entries cached forever, "locations" and "metrics", carry no
      version tag, so the sweep leaves them and their values alone. */
  lemma ForeverKeysSurviveSweep<T>(store: map<string, T>, dataVer: string, algoVer: string)
    ensures "locations" in store ==> "locations" in Swept(store, dataVer, algoVer)
    ensures "locations" in store ==> Swept(store, dataVer, algoVer)["locations"] == store["locations"]
    ensures "metrics" in store ==> "metrics" in Swept(store, dataVer, algoVer)
    ensures "metrics" in store ==> Swept(store, dataVer, algoVer)["metrics"] == store["metrics"]
  {
    ShortTextLacks("locations", "data_ver=");
    ShortTextLacks("locations", "algo_ver=");
    ShortTextLacks("metrics", "data_ver=");
    ShortTextLacks("metrics", "algo_ver=");
  }

  /** A key that mentions neither tag is never deleted. */
  lemma UntaggedKeysSurviveSweep<T>(store: map<string, T>, key: string, dataVer: string, algoVer: string)
    requires key in store
    requires !Contains(key, "data_ver=") && !Contains(key, "algo_ver=")
    ensures key in Swept(store, dataVer, algoVer) && Swept(store, dataVer, algoVer)[key] == store[key]
  {
  }

  /** What may appear in a version string: neither separator. */
  predicate PlainVersion(v: string)
  {
    Free(v, ':') && Free(v, '=')
  }

  /** An endpoint and parameter text that are one part each and carry no
      tag of their own. */
  predicate PlainRequest(endpoint: string, ps: seq<Param>)
  {
    Free(endpoint, ':') && !HasTag(endpoint)
    && Free(ParamString(ps), ':') && !HasTag(ParamString(ps))
  }

  lemma GeneratedKeyParts(endpoint: string, ps: seq<Param>, dataVer: string, algoVer: string)
    requires PlainRequest(endpoint, ps) && PlainVersion(dataVer) && PlainVersion(algoVer)
    ensures Split(KeyWith(endpoint, ps, dataVer, algoVer), ':')
         == [endpoint, ParamString(ps), "data_ver=" + dataVer, "algo_ver=" + algoVer]
  {
    KeyParts(endpoint, ps, dataVer, algoVer);
    SplitFree(endpoint, ':');
    SplitFree(ParamString(ps), ':');
  }

  /** A version tag part is stale exactly when its own version is older. */
  lemma TagPartStale(dataVer: string, algoVer: string, currentData: string, currentAlgo: string)
    requires PlainVersion(dataVer) && PlainVersion(algoVer)
    ensures StalePart("data_ver=" + dataVer, currentData, currentAlgo) <==> Less(dataVer, currentData)
    ensures StalePart("algo_ver=" + algoVer, currentData, currentAlgo) <==> Less(algoVer, currentAlgo)
  {
    TagValueOf("data_ver=", dataVer);
    TagValueOf("algo_ver=", algoVer);
    assert ("data_ver=" + dataVer)[0] == 'd';
    assert ("algo_ver=" + algoVer)[0] == 'a';
  }

  /** A key built for a plain request is deleted by a sweep exactly when its
      data version or its algorithm version is older, as Python orders
      strings, than the one the sweep runs with. */
  lemma GeneratedKeySweptIffOlder(endpoint: string, ps: seq<Param>, dataVer: string, algoVer: string,
                                  currentData: string, currentAlgo: string)
    requires PlainRequest(endpoint, ps) && PlainVersion(dataVer) && PlainVersion(algoVer)
    ensures IsStale(KeyWith(endpoint, ps, dataVer, algoVer), currentData, currentAlgo)
       <==> Less(dataVer, currentData) || Less(algoVer, currentAlgo)
  {
    var key := KeyWith(endpoint, ps, dataVer, algoVer);
    GeneratedKeyParts(endpoint, ps, dataVer, algoVer);
    KeyCarriesBothTags(endpoint, ps, dataVer, algoVer);
    TagPartStale(dataVer, algoVer, currentData, currentAlgo);
    var parts := Split(key, ':');
    assert !StalePart(parts[0], currentData, currentAlgo);
    assert !StalePart(parts[1], currentData, currentAlgo);
    if Less(dataVer, currentData) {
      assert StalePart(parts[2], currentData, currentAlgo);
    }
    if Less(algoVer, currentAlgo) {
      assert StalePart(parts[3], currentData, currentAlgo);
    }
  }

  /** A key survives a sweep run with the very versions it was built
      with. */
  lemma OwnVersionsSurviveSweep(endpoint: string, ps: seq<Param>, dataVer: string, algoVer: string)
    requires PlainRequest(endpoint, ps) && PlainVersion(dataVer) && PlainVersion(algoVer)
    ensures !IsStale(KeyWith(endpoint, ps, dataVer, algoVer), dataVer, algoVer)
  {
    GeneratedKeySweptIffOlder(endpoint, ps, dataVer, algoVer, dataVer, algoVer);
    LessIrreflexive(dataVer);
    LessIrreflexive(algoVer);
  }

  /** The startup sweep keeps every entry cached by the running version of
      the API for a plain request, with its value. */
  lemma CurrentKeySurvivesSweep<T>(store: map<string, T>, endpoint: string, ps: seq<Param>)
    requires PlainRequest(endpoint, ps)
    requires VersionedCacheKey(endpoint, ps) in store
    ensures VersionedCacheKey(endpoint, ps) in Swept(store, DerivedDataVersion, AlgoVersion)
    ensures Swept(store, DerivedDataVersion, AlgoVersion)[VersionedCacheKey(endpoint, ps)]
         == store[VersionedCacheKey(endpoint, ps)]
  {
    assert PlainVersion(DerivedDataVersion) && PlainVersion(AlgoVersion);
    OwnVersionsSurviveSweep(endpoint, ps, DerivedDataVersion, AlgoVersion);
  }

  lemma TrendsWithoutArguments()
    ensures ParamString([]) == ""
    ensures PlainRequest("trends", [])
  {
    assert "trends"[0] == 't';
  }

  /** Versions compare as text, not as numbers: moving from "9" to "10"
      leaves the entries cached under "9" in place, while moving back from
      "10" to "9" deletes the newer ones. */
  lemma VersionsCompareAsText()
    ensures !IsStale(KeyWith("trends", [], "9", "1"), "10", "1")
    ensures IsStale(KeyWith("trends", [], "10", "1"), "9", "1")
  {
    TrendsWithoutArguments();
    assert PlainVersion("9") && PlainVersion("10") && PlainVersion("1");
    GeneratedKeySweptIffOlder("trends", [], "9", "1", "10", "1");
    GeneratedKeySweptIffOlder("trends", [], "10", "1", "9", "1");
    assert !Less("9", "10") && Less("10", "9");
    LessIrreflexive("1");
  }

  lemma MimicParamString()
    ensures ParamString([("data_ver", "0")]) == "data_ver=0"
  {
    var ps := [("data_ver", "0")];
    assert SortParams(ps) == ps;
    var pieces := Pieces(ps);
    assert pieces[0] == "data_ver" + "=" + "0";
    assert pieces == [pieces[0]];
    assert Join(pieces, '&') == pieces[0];
  }

  lemma TaggedTextFree(tag: string, v: string)
    requires tag == "data_ver=" || tag == "algo_ver="
    requires Free(v, ':')
    ensures Free(tag + v, ':')
  {
    var t := tag + v;
    forall i | 0 <= i < |t| ensures t[i] != ':' {
      if i >= 9 {
        assert t[i] == v[i - 9];
      }
    }
  }

  /** The sweep does not tell arguments from version tags: when the
      parameter text reads like an older data version tag, the current key
      of the request is deleted. */
  lemma ArgumentMimicsTag(endpoint: string, ps: seq<Param>, v: string)
    requires Free(endpoint, ':') && PlainVersion(v)
    requires ParamString(ps) == "data_ver=" + v && Less(v, DerivedDataVersion)
    ensures IsStale(VersionedCacheKey(endpoint, ps), DerivedDataVersion, AlgoVersion)
  {
    var p := ParamString(ps);
    CurrentVersions();
    assert PlainVersion(DerivedDataVersion) && PlainVersion(AlgoVersion);
    KeyParts(endpoint, ps, DerivedDataVersion, AlgoVersion);
    SplitFree(endpoint, ':');
    TaggedTextFree("data_ver=", v);
    SplitFree(p, ':');
    var parts := Split(VersionedCacheKey(endpoint, ps), ':');
    assert parts[1] == p;
    TagValueOf("data_ver=", v);
    assert StalePart(parts[1], DerivedDataVersion, AlgoVersion);
    KeyCarriesBothTags(endpoint, ps, DerivedDataVersion, AlgoVersion);
  }

  /** For instance, the trends request `?data_ver=0`. */
  lemma ArgumentMimicsTagExample()
    ensures IsStale(VersionedCacheKey("trends", [("data_ver", "0")]), DerivedDataVersion, AlgoVersion)
  {
    MimicParamString();
    assert Free("trends", ':');
    assert PlainVersion("0") && Less("0", DerivedDataVersion);
    ArgumentMimicsTag("trends", [("data_ver", "0")], "0");
  }

  // ---------------------------------------------------------------------
  // `is_valid_id`

  /** `is_valid_id(val)`: the same test as `is_valid_int`, which the helpers
      module repeats word for word. */
  predicate IsValidId(v: PyValue)
  {
    IsValidInt(v)
  }

  /** The ids accepted: positive integers, text that `int()` reads as one,
      floats of at least one (which `int()` truncates, so 1.5 passes as 1)
      and `True`; `None`, blank text, text that is not an integer, "0",
      negative numbers, floats below one and `False` are refused. */
  lemma IsValidIdAcceptance(n: nat, s: string, r: real, b: bool)
    ensures IsValidId(PyStr(DecimalText(n))) <==> n > 0
    ensures !IsValidId(PyStr("-" + DecimalText(n)))
    ensures !IsValidId(PyNone)
    ensures (forall i :: 0 <= i < |s| ==> IsSpace(s[i])) ==> !IsValidId(PyStr(s))
    ensures IntOfText(s).None? ==> !IsValidId(PyStr(s))
    ensures (exists i :: 0 <= i < |s| && IsSeparator(s[i])) ==> !IsValidId(PyStr(s))
    ensures !IsValidId(PyStr("1.5")) && !IsValidId(PyStr("\U{1c}1"))
    ensures IsValidId(PyFloat(r)) <==> r >= 1.0
    ensures IsValidId(PyBool(b)) <==> b
    ensures IsValidId(PyFloat(1.5)) && IsValidId(PyBool(true)) && !IsValidId(PyFloat(0.5))
  {
    assert IsValidId(PyStr(DecimalText(n))) <==> n > 0 by { IsValidIntOnNumbers(n); }
    assert !IsValidId(PyStr("-" + DecimalText(n))) by { IsValidIntOnNumbers(n); }
    assert !IsValidId(PyNone);
    assert (forall i :: 0 <= i < |s| ==> IsSpace(s[i])) ==> !IsValidId(PyStr(s)) by { IsValidIntRefusals(s); }
    assert IntOfText(s).None? ==> !IsValidId(PyStr(s)) by { IsValidIntRefusals(s); }
    assert (exists i :: 0 <= i < |s| && IsSeparator(s[i])) ==> !IsValidId(PyStr(s)) by { IsValidIntRefusals(s); }
    assert !IsValidId(PyStr("1.5")) by { IsValidIntRefusesText(); }
    assert !IsValidId(PyStr("\U{1c}1")) by { IsValidIntRefusesSeparator(); }
    IsValidIdOnJsonValues(r, b);
  }

  /** The float and `bool` values a JSON document can give: a float passes
      exactly when it is at least one, and a `bool` exactly when it is
      `True`. */
  lemma IsValidIdOnJsonValues(r: real, b: bool)
    ensures IsValidId(PyFloat(r)) <==> r >= 1.0
    ensures IsValidId(PyBool(b)) <==> b
    ensures IsValidId(PyFloat(1.5)) && IsValidId(PyBool(true)) && !IsValidId(PyFloat(0.5))
  {
    TruncatePositive(r);
    TruncatePositive(1.5);
    TruncatePositive(0.5);
  }
}

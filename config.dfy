/** Version constants and the versioned cache key (`utils/config.py`). */
module Config {
  import opened PyText

  const DerivedVerKey: string := "ver:derived:data"
  const AlgoVerKey: string := "ver:derived:algo"

  /** Bumped by operators to invalidate everything cached. */
  const DerivedDataVersion: string := "1"
  const AlgoVersion: string := "1"

  /** `get_version(key)` */
  function GetVersion(key: string): (v: string)
    ensures key == DerivedVerKey ==> v == DerivedDataVersion
    ensures key == AlgoVerKey ==> v == AlgoVersion
    ensures key != DerivedVerKey && key != AlgoVerKey ==> v == "1"
  {
    if key == DerivedVerKey then DerivedDataVersion
    else if key == AlgoVerKey then AlgoVersion
    else "1"
  }

  /** One `(k, v)` item of the request arguments. */
  type Param = (string, string)

  /** Python's `<` on `(k, v)` tuples: by key, then by value. */
  predicate ParamLess(a: Param, b: Param)
  {
    Less(a.0, b.0) || (a.0 == b.0 && Less(a.1, b.1))
  }

  predicate ParamLe(a: Param, b: Param)
  {
    a == b || ParamLess(a, b)
  }

  lemma ParamLeTotal(a: Param, b: Param)
    ensures ParamLe(a, b) || ParamLe(b, a)
  {
    LessTrichotomy(a.0, b.0);
    LessTrichotomy(a.1, b.1);
  }

  lemma ParamLeAntisymmetric(a: Param, b: Param)
    requires ParamLe(a, b) && ParamLe(b, a)
    ensures a == b
  {
    if a != b {
      if Less(a.0, b.0) && Less(b.0, a.0) {
        LessTransitive(a.0, b.0, a.0);
        LessIrreflexive(a.0);
      } else if a.0 == b.0 {
        if Less(a.1, b.1) && Less(b.1, a.1) {
          LessTransitive(a.1, b.1, a.1);
          LessIrreflexive(a.1);
        } else {
          LessIrreflexive(a.0);
        }
      } else {
        LessIrreflexive(a.0);
      }
    }
  }

  lemma ParamLeTransitive(a: Param, b: Param, c: Param)
    requires ParamLe(a, b) && ParamLe(b, c)
    ensures ParamLe(a, c)
  {
    if a != b && b != c {
      if Less(a.0, b.0) && Less(b.0, c.0) {
        LessTransitive(a.0, b.0, c.0);
      } else if a.0 == b.0 && b.0 == c.0 {
        LessTransitive(a.1, b.1, c.1);
      }
    }
  }

  predicate Sorted(s: seq<Param>)
  {
    forall i, j :: 0 <= i < j < |s| ==> ParamLe(s[i], s[j])
  }

  /** Insert `x` into the sorted `s` before the first item above it. */
  function Insert(x: Param, s: seq<Param>): (r: seq<Param>)
    requires Sorted(s)
    ensures Sorted(r)
    ensures multiset(r) == multiset(s) + multiset{x}
    decreases |s|
  {
    if |s| == 0 then [x]
    else if ParamLe(x, s[0]) then
      assert forall j :: 0 <= j < |s| ==> ParamLe(x, s[j]) by {
        forall j | 0 <= j < |s| ensures ParamLe(x, s[j]) {
          ParamLeTransitive(x, s[0], s[j]);
        }
      }
      [x] + s
    else
      ParamLeTotal(x, s[0]);
      var rest := Insert(x, s[1..]);
      InsertAfterFirst(x, s, rest);
      assert s == [s[0]] + s[1..];
      [s[0]] + rest
  }

  /** Every item of `rest`, the other items of `s` with `x`, is at least
      `s[0]` when `x` is. */
  lemma InsertAfterFirst(x: Param, s: seq<Param>, rest: seq<Param>)
    requires Sorted(s) && |s| > 0 && ParamLe(s[0], x)
    requires multiset(rest) == multiset(s[1..]) + multiset{x}
    ensures forall j :: 0 <= j < |rest| ==> ParamLe(s[0], rest[j])
  {
    forall j | 0 <= j < |rest| ensures ParamLe(s[0], rest[j]) {
      assert rest[j] in multiset(rest);
      assert rest[j] in multiset(s[1..]) || rest[j] == x;
      if rest[j] != x {
        var k :| 0 <= k < |s[1..]| && s[1..][k] == rest[j];
        assert s[k + 1] == rest[j];
      }
    }
  }

  /** `sorted(args.items())` */
  function SortParams(ps: seq<Param>): (r: seq<Param>)
    ensures Sorted(r)
    ensures multiset(r) == multiset(ps)
    decreases |ps|
  {
    if |ps| == 0 then []
    else
      assert ps == [ps[0]] + ps[1..];
      Insert(ps[0], SortParams(ps[1..]))
  }

  /** Two sorted arrangements of the same items are the same sequence: what
      `sorted` returns depends only on which items there are. */
  lemma {:induction false} SortedUnique(a: seq<Param>, b: seq<Param>)
    requires Sorted(a) && Sorted(b) && multiset(a) == multiset(b)
    ensures a == b
    decreases |a|
  {
    assert |b| == |a| by {
      assert |multiset(a)| == |a| && |multiset(b)| == |b|;
    }
    if |a| > 0 {
      SameFirst(a, b);
      SameRest(a, b);
      assert Sorted(a[1..]) && Sorted(b[1..]);
      SortedUnique(a[1..], b[1..]);
      assert a == [a[0]] + a[1..] && b == [b[0]] + b[1..];
    }
  }

  /** Two sorted arrangements of the same items start with the same item. */
  lemma SameFirst(a: seq<Param>, b: seq<Param>)
    requires Sorted(a) && Sorted(b) && multiset(a) == multiset(b)
    requires |a| > 0 && |b| > 0
    ensures a[0] == b[0]
  {
    assert a[0] in multiset(b);
    var j :| 0 <= j < |b| && b[j] == a[0];
    assert b[0] in multiset(a);
    var i :| 0 <= i < |a| && a[i] == b[0];
    assert ParamLe(b[0], a[0]);
    assert ParamLe(a[0], b[0]);
    ParamLeAntisymmetric(a[0], b[0]);
  }

  lemma SameRest(a: seq<Param>, b: seq<Param>)
    requires multiset(a) == multiset(b) && |a| > 0 && |b| > 0 && a[0] == b[0]
    ensures multiset(a[1..]) == multiset(b[1..])
  {
    assert a == [a[0]] + a[1..] && b == [b[0]] + b[1..];
    assert multiset(a) == multiset{a[0]} + multiset(a[1..]);
    assert multiset(b) == multiset{b[0]} + multiset(b[1..]);
    assert multiset(a[1..]) == multiset(a) - multiset{a[0]};
    assert multiset(b[1..]) == multiset(b) - multiset{b[0]};
  }

  /** The `k=v` pieces of the parameter text, in sorted order. */
  function Pieces(ps: seq<Param>): (r: seq<string>)
    ensures |r| == |ps|
  {
    seq(|ps|, i requires 0 <= i < |ps| => ps[i].0 + "=" + ps[i].1)
  }

  /** `"&".join(f"{k}={v}" for k, v in sorted(args.items()))` */
  function ParamString(ps: seq<Param>): string
  {
    Join(Pieces(SortParams(ps)), '&')
  }

  /** The key for an endpoint and its arguments under the two given
      versions. */
  function KeyWith(endpoint: string, ps: seq<Param>, dataVer: string, algoVer: string): string
  {
    endpoint + ":" + ParamString(ps) + ":data_ver=" + dataVer + ":algo_ver=" + algoVer
  }

  /** `get_versioned_cache_key(endpoint, args)` under the current versions. */
  function VersionedCacheKey(endpoint: string, ps: seq<Param>): string
  {
    KeyWith(endpoint, ps, GetVersion(DerivedVerKey), GetVersion(AlgoVerKey))
  }

  /** Both versions the key builder reads are the configured constants. */
  lemma CurrentVersions()
    ensures GetVersion(DerivedVerKey) == DerivedDataVersion && GetVersion(AlgoVerKey) == AlgoVersion
  {
  }

  /** Argument order does not matter: the same items in any order give the
      same key. */
  lemma KeyIgnoresArgumentOrder(endpoint: string, ps: seq<Param>, qs: seq<Param>)
    requires multiset(ps) == multiset(qs)
    ensures VersionedCacheKey(endpoint, ps) == VersionedCacheKey(endpoint, qs)
  {
    SortedUnique(SortParams(ps), SortParams(qs));
  }

  /** For arguments whose names and values hold no `&`, the parameter text
      splits at `&` into exactly the `k=v` pieces of the sorted items, one
      for each item, each of them the piece of an item given. */
  lemma ParamStringSplitsIntoPieces(ps: seq<Param>)
    requires |ps| > 0
    requires forall i :: 0 <= i < |ps| ==> Free(ps[i].0, '&') && Free(ps[i].1, '&')
    ensures Split(ParamString(ps), '&') == Pieces(SortParams(ps))
    ensures |Split(ParamString(ps), '&')| == |ps|
    ensures forall k :: 0 <= k < |ps| ==>
      exists i :: 0 <= i < |ps| && Split(ParamString(ps), '&')[k] == ps[i].0 + "=" + ps[i].1
  {
    var sorted := SortParams(ps);
    var pieces := Pieces(sorted);
    forall k | 0 <= k < |pieces|
      ensures Free(pieces[k], '&')
      ensures exists i :: 0 <= i < |ps| && pieces[k] == ps[i].0 + "=" + ps[i].1
    {
      assert sorted[k] in multiset(ps);
      var i :| 0 <= i < |ps| && ps[i] == sorted[k];
      assert pieces[k] == ps[i].0 + "=" + ps[i].1;
    }
    JoinSplit(pieces, '&');
  }

  /** No arguments: the parameter text is empty, leaving two adjacent colons. */
  lemma EmptyArguments(endpoint: string)
    ensures VersionedCacheKey(endpoint, []) == endpoint + "::data_ver=" + DerivedDataVersion + ":algo_ver=" + AlgoVersion
  {
  }

  /** A key's `:`-separated parts: those of the endpoint, those of the
      parameter text, then the two version tags. */
  lemma KeyParts(endpoint: string, ps: seq<Param>, dataVer: string, algoVer: string)
    requires Free(dataVer, ':') && Free(algoVer, ':')
    ensures Split(KeyWith(endpoint, ps, dataVer, algoVer), ':')
         == Split(endpoint, ':') + Split(ParamString(ps), ':') + ["data_ver=" + dataVer, "algo_ver=" + algoVer]
  {
    var p := ParamString(ps);
    var d := "data_ver=" + dataVer;
    var a := "algo_ver=" + algoVer;
    TagParts(dataVer, algoVer);
    var tail := d + [':'] + a;
    assert KeyWith(endpoint, ps, dataVer, algoVer) == endpoint + [':'] + (p + [':'] + tail) by {
      KeyLayout(endpoint, p, dataVer, algoVer);
    }
    SplitAt(endpoint, ':', p + [':'] + tail);
    SplitAt(p, ':', tail);
  }

  lemma KeyLayout(endpoint: string, p: string, dataVer: string, algoVer: string)
    ensures endpoint + ":" + p + ":data_ver=" + dataVer + ":algo_ver=" + algoVer
         == endpoint + [':'] + (p + [':'] + (("data_ver=" + dataVer) + [':'] + ("algo_ver=" + algoVer)))
  {
    assert ":data_ver=" == [':'] + "data_ver=";
    assert ":algo_ver=" == [':'] + "algo_ver=";
  }

  /** The two version tags, joined by a colon, split back into the tags. */
  lemma TagParts(dataVer: string, algoVer: string)
    requires Free(dataVer, ':') && Free(algoVer, ':')
    ensures Split(("data_ver=" + dataVer) + [':'] + ("algo_ver=" + algoVer), ':') == ["data_ver=" + dataVer, "algo_ver=" + algoVer]
  {
    var d := "data_ver=" + dataVer;
    var a := "algo_ver=" + algoVer;
    assert Free("data_ver=", ':') && Free("algo_ver=", ':');
    assert Free(d, ':') by {
      forall i | 0 <= i < |d| ensures d[i] != ':' {
        if i >= 9 { assert d[i] == dataVer[i - 9]; }
      }
    }
    assert Free(a, ':') by {
      forall i | 0 <= i < |a| ensures a[i] != ':' {
        if i >= 9 { assert a[i] == algoVer[i - 9]; }
      }
    }
    SplitAt(d, ':', a);
    SplitFree(d, ':');
    SplitFree(a, ':');
  }

  /** Position of the first `c` in `s`, or `|s|` when there is none. */
  function FirstIndexOf(s: string, c: char): (i: nat)
    ensures i <= |s|
    decreases |s|
  {
    if |s| == 0 then 0 else if s[0] == c then 0 else 1 + FirstIndexOf(s[1..], c)
  }

  lemma {:induction false} FirstColonAfter(d: string, t: string, a: string)
    requires Free(d, ':') && |t| > 0 && t[0] == ':'
    ensures FirstIndexOf(d + t + a, ':') == |d|
    decreases |d|
  {
    var s := d + t + a;
    if |d| > 0 {
      assert s[0] == d[0];
      assert s[1..] == d[1..] + t + a;
      FirstColonAfter(d[1..], t, a);
    } else {
      assert s[0] == t[0];
    }
  }

  /** Versions without a colon are recovered from the key: two keys for the
      same request are equal only if both versions are, so bumping either
      version makes a new key. */
  lemma KeyDeterminesVersions(endpoint: string, ps: seq<Param>, d1: string, a1: string, d2: string, a2: string)
    requires Free(d1, ':') && Free(d2, ':')
    requires KeyWith(endpoint, ps, d1, a1) == KeyWith(endpoint, ps, d2, a2)
    ensures d1 == d2 && a1 == a2
  {
    var p := ParamString(ps);
    var prefix := endpoint + ":" + p + ":data_ver=";
    var t := ":algo_ver=";
    KeyTail(endpoint, p, d1, a1);
    KeyTail(endpoint, p, d2, a2);
    DropPrefix(prefix, d1 + t + a1, d2 + t + a2);
    SplitAtFirstColon(d1, a1, d2, a2, t);
  }

  lemma KeyTail(endpoint: string, p: string, d: string, a: string)
    ensures endpoint + ":" + p + ":data_ver=" + d + ":algo_ver=" + a
         == (endpoint + ":" + p + ":data_ver=") + (d + ":algo_ver=" + a)
  {
  }

  lemma DropPrefix(prefix: string, k1: string, k2: string)
    requires prefix + k1 == prefix + k2
    ensures k1 == k2
  {
    assert k1 == (prefix + k1)[|prefix|..];
    assert k2 == (prefix + k2)[|prefix|..];
  }

  /** Text free of colons before a colon-led separator is recovered. */
  lemma SplitAtFirstColon(d1: string, a1: string, d2: string, a2: string, t: string)
    requires Free(d1, ':') && Free(d2, ':') && |t| > 0 && t[0] == ':'
    requires d1 + t + a1 == d2 + t + a2
    ensures d1 == d2 && a1 == a2
  {
    var k := d1 + t + a1;
    FirstColonAfter(d1, t, a1);
    FirstColonAfter(d2, t, a2);
    assert d1 == k[..|d1|] && d2 == k[..|d2|];
    assert a1 == k[|d1| + |t|..] && a2 == k[|d2| + |t|..];
  }

  /** Every key carries both version tags, whatever the versions, so the
      startup sweep examines it. */
  lemma KeyCarriesBothTags(endpoint: string, ps: seq<Param>, dataVer: string, algoVer: string)
    ensures Contains(KeyWith(endpoint, ps, dataVer, algoVer), "data_ver=")
    ensures Contains(KeyWith(endpoint, ps, dataVer, algoVer), "algo_ver=")
  {
    var d := "data_ver=" + dataVer;
    var a := "algo_ver=" + algoVer;
    var head := endpoint + [':'] + (ParamString(ps) + [':']);
    KeyLayout(endpoint, ParamString(ps), dataVer, algoVer);
    assert KeyWith(endpoint, ps, dataVer, algoVer) == head + (d + ([':'] + a));
    PrefixContains(d + ([':'] + a), "data_ver=", dataVer + ([':'] + a));
    ContainsAppend(head, d + ([':'] + a), "data_ver=");
    assert KeyWith(endpoint, ps, dataVer, algoVer) == (head + d + [':']) + a;
    PrefixContains(a, "algo_ver=", algoVer);
    ContainsAppend(head + d + [':'], a, "algo_ver=");
  }
}

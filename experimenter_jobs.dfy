/**
  The cron script that starts test jobs for new Experimenter experiments:
  which Firefox versions each job tests, and which experiments are new
  since the last run.
 */
module ExperimenterJobs {
  import opened Text
  import opened PyJson
  import opened Versions

  /** `Version(s)`, raising InvalidVersion where `s` is not a version. */
  function VersionOrRaise(s: string): Outcome<Version> {
    match ParseVersion(s)
    case None => Raise(InvalidVersion)
    case Some(v) => Ok(v)
  }

  /**
    The `min_version` argument. The desktop and Android callers pass a
    one-element list of strings; the iOS caller passes a string.
   */
  datatype MinVersion = MinText(text: string) | MinList(items: seq<string>)

  /** `min_version[0]`: the first character of a string, the first item of a list. */
  function FirstOf(m: MinVersion): Outcome<string> {
    match m
    case MinText(s) => if s == [] then Raise(IndexError) else Ok([s[0]])
    case MinList(xs) => if xs == [] then Raise(IndexError) else Ok(xs[0])
  }

  /** `Version(min_version)`: a list is not a string, so `Version` raises TypeError on it. */
  function WholeOf(m: MinVersion): Outcome<Version> {
    match m
    case MinText(s) => VersionOrRaise(s)
    case MinList(_) => Raise(TypeError)
  }

  // ---------------------------------------------------------------------
  // `get_latest_versions`
  // ---------------------------------------------------------------------

  /**
    The first loop: the versions, in order, that are at least
    `Version(min_version[0])`. `Version(version)` is evaluated before
    `min_version[0]`, so the first key that fails decides the exception,
    and an empty key list never looks at `min_version`.
   */
  function Considered(versions: seq<string>, m: MinVersion): Outcome<seq<Version>> {
    if versions == [] then Ok([])
    else
      var before :- Considered(versions[..|versions| - 1], m);
      var v :- VersionOrRaise(versions[|versions| - 1]);
      var first :- FirstOf(m);
      var low :- VersionOrRaise(first);
      Ok(if Cmp(v, low) >= 0 then before + [v] else before)
  }

  /** Once a prefix of the keys raises, the whole loop raises the same exception. */
  lemma {:induction false} ConsideredRaise(versions: seq<string>, m: MinVersion, i: nat)
    requires i <= |versions| && Considered(versions[..i], m).Raise?
    ensures Considered(versions, m) == Considered(versions[..i], m)
    decreases |versions| - i
  {
    if i < |versions| {
      assert versions[..i + 1][..i] == versions[..i];
      ConsideredRaise(versions, m, i + 1);
    } else {
      assert versions[..i] == versions;
    }
  }

  /** Only versions at least the minimum are considered, and every one of them is, in order. */
  lemma {:induction false} ConsideredMeans(versions: seq<string>, m: MinVersion)
    requires versions != [] && Considered(versions, m).Ok?
    ensures FirstOf(m).Ok? && VersionOrRaise(FirstOf(m).value).Ok?
    ensures var low := VersionOrRaise(FirstOf(m).value).value;
      var cs := Considered(versions, m).value;
      (forall c :: c in cs ==> Cmp(c, low) >= 0) &&
      (forall i :: 0 <= i < |versions| ==>
         ParseVersion(versions[i]).Some? &&
         (Cmp(ParseVersion(versions[i]).value, low) >= 0 ==> ParseVersion(versions[i]).value in cs))
  {
    var n := |versions| - 1;
    var init := versions[..n];
    if init != [] {
      ConsideredMeans(init, m);
    }
    forall i | 0 <= i < n ensures versions[i] == init[i] { }
  }

  /** `f"{version.major}.{version.minor}"`, the group a version belongs to. */
  function GroupKey(v: Version): string {
    NatToString(Major(v)) + "." + NatToString(Minor(v))
  }

  /** Two versions share a group exactly when they share major and minor. */
  lemma GroupKeyMeans(a: Version, b: Version)
    ensures GroupKey(a) == GroupKey(b) <==> Major(a) == Major(b) && Minor(a) == Minor(b)
  {
    if GroupKey(a) == GroupKey(b) {
      forall v: Version ensures Split(GroupKey(v), '.') == [NatToString(Major(v)), NatToString(Minor(v))] {
        var parts := [NatToString(Major(v)), NatToString(Minor(v))];
        assert forall i :: 0 <= i < |parts| ==> AllDigits(parts[i]);
        assert forall i :: 0 <= i < |parts| ==> '.' !in parts[i];
        SplitJoin(parts, '.');
        assert Join(parts, '.') == GroupKey(v);
      }
      NatToStringInjective(Major(a), Major(b));
      NatToStringInjective(Minor(a), Minor(b));
    }
  }

  /** Equal versions share a group. */
  lemma SameVersionSameGroup(a: Version, b: Version)
    ensures Cmp(a, b) == 0 ==> GroupKey(a) == GroupKey(b)
  {
    if Cmp(a, b) == 0 {
      CmpZeroSameTriple(a, b);
    }
  }

  /** `version_groups[k]`: the considered versions of group `k`, in order. */
  function GroupOf(cs: seq<Version>, k: string): (g: seq<Version>)
    ensures forall x :: x in g <==> x in cs && GroupKey(x) == k
  {
    if cs == [] then []
    else GroupOf(cs[..|cs| - 1], k) + (if GroupKey(cs[|cs| - 1]) == k then [cs[|cs| - 1]] else [])
  }

  /** The first no-smaller version so far stays ahead of a new last entry unless that one is larger. */
  lemma FirstMaxAppend(init: seq<Version>, last: Version, m: Version)
    requires m in init
    requires forall x :: x in init ==> !TripleLess(Triple(m), Triple(x))
    requires exists k :: 0 <= k < |init| && init[k] == m && forall j :: 0 <= j < k ==> TripleLess(Triple(init[j]), Triple(m))
    ensures var vs := init + [last];
      var r := if TripleLess(Triple(m), Triple(last)) then last else m;
      r in vs &&
      (forall x :: x in vs ==> !TripleLess(Triple(r), Triple(x))) &&
      exists k :: 0 <= k < |vs| && vs[k] == r && forall j :: 0 <= j < k ==> TripleLess(Triple(vs[j]), Triple(r))
  {
    var vs := init + [last];
    var k :| 0 <= k < |init| && init[k] == m && forall j :: 0 <= j < k ==> TripleLess(Triple(init[j]), Triple(m));
    assert forall x :: x in vs ==> x in init || x == last;
    if TripleLess(Triple(m), Triple(last)) {
      forall j | 0 <= j < |init| ensures TripleLess(Triple(vs[j]), Triple(last)) {
        assert vs[j] == init[j] && init[j] in init;
      }
      assert vs[|init|] == last;
    } else {
      assert vs[k] == m;
    }
  }

  /**
    `max(versions, key=lambda v: (v.major, v.minor, v.micro))`: the first
    version whose triple no other exceeds (a later equal triple does not replace it).
   */
  function FirstMax(vs: seq<Version>): (r: Version)
    requires |vs| > 0
    ensures r in vs
    ensures forall x :: x in vs ==> !TripleLess(Triple(r), Triple(x))
    ensures exists k :: 0 <= k < |vs| && vs[k] == r && forall j :: 0 <= j < k ==> TripleLess(Triple(vs[j]), Triple(r))
  {
    if |vs| == 1 then
      assert vs[0] in vs;
      vs[0]
    else
      var init := vs[..|vs| - 1];
      var m := FirstMax(init);
      FirstMaxAppend(init, vs[|vs| - 1], m);
      assert init + [vs[|vs| - 1]] == vs;
      if TripleLess(Triple(m), Triple(vs[|vs| - 1])) then vs[|vs| - 1] else m
  }

  /**
    What `get_latest_versions` promises of its result `out` over the
    considered versions `cs`: every entry is the `max` of its own group,
    every group is represented, and the entries ascend strictly.
   */
  predicate LatestPerGroup(cs: seq<Version>, out: seq<Version>) {
    (forall i :: 0 <= i < |out| ==>
       GroupOf(cs, GroupKey(out[i])) != [] && out[i] == FirstMax(GroupOf(cs, GroupKey(out[i])))) &&
    (forall c :: c in cs ==> exists i :: 0 <= i < |out| && GroupKey(out[i]) == GroupKey(c)) &&
    (forall i, j :: 0 <= i < j < |out| ==> Cmp(out[i], out[j]) < 0)
  }

  /** `[f"{version}" for version in out]` */
  function Render(out: seq<Version>): (r: seq<string>)
    ensures |r| == |out| && forall i :: 0 <= i < |out| ==> r[i] == Format(out[i])
    ensures forall i :: 0 <= i < |r| ==> ParseVersion(r[i]) == Some(out[i])
  {
    var r := seq(|out|, i requires 0 <= i < |out| => Format(out[i]));
    assert forall i :: 0 <= i < |r| ==> ParseVersion(r[i]) == Some(out[i]) by {
      forall i | 0 <= i < |r| ensures ParseVersion(r[i]) == Some(out[i]) {
        ParseFormat(out[i]);
      }
    }
    r
  }

  predicate StrictlyAscending(s: seq<Version>) {
    forall i, j :: 0 <= i < j < |s| ==> Cmp(s[i], s[j]) < 0
  }

  /** Pairwise distinct under the version order. */
  predicate Distinct(s: seq<Version>) {
    forall i, j :: 0 <= i < |s| && 0 <= j < |s| && i != j ==> Cmp(s[i], s[j]) != 0
  }

  /** A version below the head of a strictly ascending list is below all of it. */
  lemma BelowHead(x: Version, s: seq<Version>)
    requires s != [] && StrictlyAscending(s) && Cmp(x, s[0]) < 0
    ensures StrictlyAscending([x] + s)
  {
    var r := [x] + s;
    forall i, j | 0 <= i < j < |r| ensures Cmp(r[i], r[j]) < 0 {
      if i > 0 {
        assert r[i] == s[i - 1] && r[j] == s[j - 1];
      } else if j > 1 {
        assert r[j] == s[j - 1];
        CmpTransitive(x, s[0], s[j - 1]);
      }
    }
  }

  /** The head of a strictly ascending list stays in front of the insertion into its tail. */
  lemma AboveHead(x: Version, s: seq<Version>, rest: seq<Version>)
    requires s != [] && StrictlyAscending(s) && Cmp(s[0], x) < 0
    requires forall y :: y in rest <==> y == x || y in s[1..]
    requires StrictlyAscending(rest)
    ensures StrictlyAscending([s[0]] + rest)
  {
    var r := [s[0]] + rest;
    forall i, j | 0 <= i < j < |r| ensures Cmp(r[i], r[j]) < 0 {
      assert r[j] == rest[j - 1] && rest[j - 1] in rest;
      if i > 0 {
        assert r[i] == rest[i - 1];
      } else if rest[j - 1] != x {
        var k :| 0 <= k < |s[1..]| && s[1..][k] == rest[j - 1];
        assert s[k + 1] == rest[j - 1];
      }
    }
  }

  /** Insertion of a version that equals none of the entries of a strictly ascending list. */
  function Insert(x: Version, s: seq<Version>): (r: seq<Version>)
    requires StrictlyAscending(s)
    requires forall y :: y in s ==> Cmp(x, y) != 0
    ensures |r| == |s| + 1
    ensures forall y :: y in r <==> y == x || y in s
    ensures StrictlyAscending(r)
  {
    if s == [] then [x]
    else if Cmp(x, s[0]) < 0 then
      BelowHead(x, s);
      [x] + s
    else
      assert s[0] in s;
      CmpAntisymmetric(x, s[0]);
      var rest := Insert(x, s[1..]);
      AboveHead(x, s, rest);
      assert [s[0]] + s[1..] == s;
      [s[0]] + rest
  }

  /** `sorted(...)` of pairwise distinct versions. */
  function SortVersions(xs: seq<Version>): (r: seq<Version>)
    requires Distinct(xs)
    ensures |r| == |xs|
    ensures forall y :: y in r <==> y in xs
    ensures StrictlyAscending(r)
  {
    if xs == [] then []
    else
      var tail := xs[1..];
      assert Distinct(tail) by {
        forall i, j | 0 <= i < |tail| && 0 <= j < |tail| && i != j ensures Cmp(tail[i], tail[j]) != 0 {
          assert tail[i] == xs[i + 1] && tail[j] == xs[j + 1];
        }
      }
      var sortedTail := SortVersions(tail);
      assert forall y :: y in sortedTail ==> Cmp(xs[0], y) != 0 by {
        forall y | y in sortedTail ensures Cmp(xs[0], y) != 0 {
          var j :| 0 <= j < |tail| && tail[j] == y;
          assert xs[j + 1] == y;
        }
      }
      Insert(xs[0], sortedTail)
  }

  lemma NoMembersEmpty<T>(s: seq<T>)
    ensures (forall x :: x !in s) ==> s == []
  {
    if s != [] {
      assert s[0] in s;
    }
  }

  /** At most one output version per (major, minor) group. */
  lemma OnePerGroup(cs: seq<Version>, out: seq<Version>, i: nat, j: nat)
    requires LatestPerGroup(cs, out)
    requires i < j < |out|
    ensures GroupKey(out[i]) != GroupKey(out[j])
  {
    CmpReflexive(out[i]);
  }

  /** Each output version is a considered version that nothing in its group exceeds by (major, minor, micro). */
  lemma GreatestInGroup(cs: seq<Version>, out: seq<Version>, i: nat, c: Version)
    requires LatestPerGroup(cs, out)
    requires i < |out| && c in cs && GroupKey(c) == GroupKey(out[i])
    ensures out[i] in cs
    ensures !TripleLess(Triple(out[i]), Triple(c))
  {
    assert c in GroupOf(cs, GroupKey(out[i]));
  }

  lemma AscendingTail(s: seq<Version>)
    requires StrictlyAscending(s) && s != []
    ensures StrictlyAscending(s[1..])
  {
    forall a, b | 0 <= a < b < |s| - 1 ensures Cmp(s[1..][a], s[1..][b]) < 0 {
      assert s[1..][a] == s[a + 1] && s[1..][b] == s[b + 1];
    }
  }

  /** The least member comes first, so two such lists start alike. */
  lemma AscendingSameHead(o1: seq<Version>, o2: seq<Version>)
    requires StrictlyAscending(o1) && StrictlyAscending(o2)
    requires forall y :: y in o1 <==> y in o2
    requires o1 != [] && o2 != []
    ensures o1[0] == o2[0]
  {
    var x, y := o1[0], o2[0];
    assert x in o2;
    var j :| 0 <= j < |o2| && o2[j] == x;
    assert y in o1;
    var i :| 0 <= i < |o1| && o1[i] == y;
    CmpAntisymmetric(x, y);
    CmpReflexive(x);
  }

  /** A member after the head of one list is after the head of the other. */
  lemma AscendingTailMember(o1: seq<Version>, o2: seq<Version>, z: Version)
    requires StrictlyAscending(o1) && StrictlyAscending(o2)
    requires forall y :: y in o1 <==> y in o2
    requires o1 != [] && o2 != [] && o1[0] == o2[0]
    requires z in o1[1..]
    ensures z in o2[1..]
  {
    var a :| 0 <= a < |o1| - 1 && o1[1..][a] == z;
    assert o1[a + 1] == z && z in o1;
    CmpReflexive(o1[0]);
    var b :| 0 <= b < |o2| && o2[b] == z;
    assert o2[1..][b - 1] == z;
  }

  /** Two strictly ascending lists with the same members are the same list. */
  lemma {:induction false} AscendingSameMembers(o1: seq<Version>, o2: seq<Version>)
    requires StrictlyAscending(o1) && StrictlyAscending(o2)
    requires forall y :: y in o1 <==> y in o2
    ensures o1 == o2
    decreases |o1|
  {
    if o1 == [] {
      NoMembersEmpty(o2);
    } else if o2 == [] {
      NoMembersEmpty(o1);
    } else {
      AscendingSameHead(o1, o2);
      forall z ensures z in o1[1..] <==> z in o2[1..] {
        if z in o1[1..] {
          AscendingTailMember(o1, o2, z);
        }
        if z in o2[1..] {
          AscendingTailMember(o2, o1, z);
        }
      }
      AscendingTail(o1);
      AscendingTail(o2);
      AscendingSameMembers(o1[1..], o2[1..]);
      assert o1 == [o1[0]] + o1[1..] && o2 == [o2[0]] + o2[1..];
    }
  }

  lemma MemberOfOther(cs: seq<Version>, o1: seq<Version>, o2: seq<Version>, y: Version)
    requires LatestPerGroup(cs, o1) && LatestPerGroup(cs, o2)
    requires y in o1
    ensures y in o2
  {
    var i :| 0 <= i < |o1| && o1[i] == y;
    var g := GroupOf(cs, GroupKey(y));
    assert g[0] in g;
    var j :| 0 <= j < |o2| && GroupKey(o2[j]) == GroupKey(g[0]);
  }

  /** The promise determines the result: at most one list meets it. */
  lemma LatestPerGroupUnique(cs: seq<Version>, o1: seq<Version>, o2: seq<Version>)
    requires LatestPerGroup(cs, o1) && LatestPerGroup(cs, o2)
    ensures o1 == o2
  {
    forall y ensures y in o1 <==> y in o2 {
      if y in o1 {
        MemberOfOther(cs, o1, o2, y);
      }
      if y in o2 {
        MemberOfOther(cs, o2, o1, y);
      }
    }
    AscendingSameMembers(o1, o2);
  }

  /** The first loop of `get_latest_versions`: `version_list`. */
  method FilterVersions(versions: seq<string>, minVersion: MinVersion) returns (r: Outcome<seq<Version>>)
    ensures r == Considered(versions, minVersion)
  {
    var considered: seq<Version> := [];
    var i := 0;
    while i < |versions|
      invariant 0 <= i <= |versions|
      invariant Considered(versions[..i], minVersion) == Ok(considered)
    {
      assert versions[..i + 1][..i] == versions[..i];
      var v := VersionOrRaise(versions[i]);
      if v.Raise? {
        ConsideredRaise(versions, minVersion, i + 1);
        return Raise(v.error);
      }
      var first := FirstOf(minVersion);
      if first.Raise? {
        ConsideredRaise(versions, minVersion, i + 1);
        return Raise(first.error);
      }
      var low := VersionOrRaise(first.value);
      if low.Raise? {
        ConsideredRaise(versions, minVersion, i + 1);
        return Raise(low.error);
      }
      if Cmp(v.value, low.value) >= 0 {
        considered := considered + [v.value];
      }
      i := i + 1;
    }
    assert versions[..i] == versions;
    return Ok(considered);
  }

  /**
    The second loop: `version_groups`, a map from group key to the group's
    versions, with `keys` the order in which the groups were first met.
   */
  method GroupVersions(considered: seq<Version>) returns (groups: map<string, seq<Version>>, keys: seq<string>)
    ensures forall k :: k in groups <==> k in keys
    ensures forall a, b :: 0 <= a < b < |keys| ==> keys[a] != keys[b]
    ensures forall k :: k in groups ==> groups[k] == GroupOf(considered, k) && groups[k] != []
    ensures forall c :: c in considered ==> GroupKey(c) in groups
  {
    groups := map[];
    keys := [];
    var j := 0;
    while j < |considered|
      invariant 0 <= j <= |considered|
      invariant forall k :: k in groups <==> k in keys
      invariant forall a, b :: 0 <= a < b < |keys| ==> keys[a] != keys[b]
      invariant forall k :: k in groups ==> groups[k] == GroupOf(considered[..j], k) && groups[k] != []
      invariant forall c :: c in considered[..j] ==> GroupKey(c) in groups
    {
      var c := considered[j];
      var key := GroupKey(c);
      assert considered[..j + 1][..j] == considered[..j];
      assert forall x :: x in considered[..j + 1] ==> x in considered[..j] || x == c;
      if key in groups {
        groups := groups[key := groups[key] + [c]];
      } else {
        NoMembersEmpty(GroupOf(considered[..j], key));
        groups := groups[key := [c]];
        keys := keys + [key];
      }
      j := j + 1;
    }
    assert considered[..j] == considered;
  }

  /** The third loop: `latest_versions`, the `max` of every group, in group order. */
  method LatestOfGroups(groups: map<string, seq<Version>>, keys: seq<string>) returns (latest: seq<Version>)
    requires forall k :: k in keys ==> k in groups && groups[k] != []
    ensures |latest| == |keys|
    ensures forall a :: 0 <= a < |keys| ==> latest[a] == FirstMax(groups[keys[a]])
  {
    latest := [];
    var t := 0;
    while t < |keys|
      invariant 0 <= t <= |keys|
      invariant |latest| == t
      invariant forall a :: 0 <= a < t ==> latest[a] == FirstMax(groups[keys[a]])
    {
      assert keys[t] in keys;
      latest := latest + [FirstMax(groups[keys[t]])];
      t := t + 1;
    }
  }

  /** The group maxima, one per distinct key, are pairwise distinct versions. */
  lemma LatestDistinct(considered: seq<Version>, keys: seq<string>, latest: seq<Version>)
    requires |latest| == |keys|
    requires forall a, b :: 0 <= a < b < |keys| ==> keys[a] != keys[b]
    requires forall a :: 0 <= a < |keys| ==>
      GroupOf(considered, keys[a]) != [] && latest[a] == FirstMax(GroupOf(considered, keys[a]))
    ensures forall a :: 0 <= a < |keys| ==> GroupKey(latest[a]) == keys[a]
    ensures Distinct(latest)
  {
    forall a | 0 <= a < |latest| ensures GroupKey(latest[a]) == keys[a] {
      assert latest[a] in GroupOf(considered, keys[a]);
    }
    forall a, b | 0 <= a < |latest| && 0 <= b < |latest| && a != b ensures Cmp(latest[a], latest[b]) != 0 {
      SameVersionSameGroup(latest[a], latest[b]);
      if a < b {
        assert keys[a] != keys[b];
      } else {
        assert keys[b] != keys[a];
      }
    }
  }

  /** Sorting the group maxima gives what `get_latest_versions` promises. */
  lemma SortedLatest(considered: seq<Version>, keys: seq<string>, latest: seq<Version>, out: seq<Version>)
    requires |latest| == |keys|
    requires forall c :: c in considered ==> GroupKey(c) in keys
    requires forall a :: 0 <= a < |keys| ==> GroupKey(latest[a]) == keys[a]
    requires forall a :: 0 <= a < |keys| ==>
      GroupOf(considered, keys[a]) != [] && latest[a] == FirstMax(GroupOf(considered, keys[a]))
    requires forall y :: y in out <==> y in latest
    requires StrictlyAscending(out)
    ensures LatestPerGroup(considered, out)
  {
    forall i | 0 <= i < |out|
      ensures GroupOf(considered, GroupKey(out[i])) != [] && out[i] == FirstMax(GroupOf(considered, GroupKey(out[i])))
    {
      assert out[i] in latest;
      var a :| 0 <= a < |latest| && latest[a] == out[i];
    }
    forall c | c in considered ensures exists i :: 0 <= i < |out| && GroupKey(out[i]) == GroupKey(c) {
      var a :| 0 <= a < |keys| && keys[a] == GroupKey(c);
      assert latest[a] in out;
      var i :| 0 <= i < |out| && out[i] == latest[a];
    }
  }

  /**
    `get_latest_versions(versions, min_version)`: the exception of the first
    loop, or the latest version of every (major, minor) group at or above
    the minimum, ascending, rendered with `str`.
   */
  method GetLatestVersions(versions: seq<string>, minVersion: MinVersion) returns (r: Outcome<seq<string>>)
    ensures Considered(versions, minVersion).Raise? ==> r == Raise(Considered(versions, minVersion).error)
    ensures Considered(versions, minVersion).Ok? ==>
      r.Ok? && exists out :: LatestPerGroup(Considered(versions, minVersion).value, out) && r.value == Render(out)
  {
    var filtered := FilterVersions(versions, minVersion);
    if filtered.Raise? {
      return Raise(filtered.error);
    }
    var considered := filtered.value;
    var groups, keys := GroupVersions(considered);
    var latest := LatestOfGroups(groups, keys);
    LatestDistinct(considered, keys, latest);
    var out := SortVersions(latest);
    SortedLatest(considered, keys, latest, out);
    return Ok(Render(out));
  }

  // ---------------------------------------------------------------------
  // `get_firefox_verions`
  // ---------------------------------------------------------------------

  /** What `get_firefox_verions` returns. */
  datatype Selection =
    | Listed(items: seq<string>)     // a list in a known order
    | Unordered(members: set<string>)  // a list built by iterating a set
    | Literal(text: string)          // a string
    | Nothing                        // None

  /**
    The iOS loop over `reversed(versions.keys())` once it has visited
    `versions[i..]` (from the end): the set of majors above the minimum's major.
   */
  function IosMajorsFrom(versions: seq<string>, m: MinVersion, i: nat): Outcome<set<nat>>
    requires i <= |versions|
    decreases |versions| - i
  {
    if i == |versions| then Ok({})
    else
      var later :- IosMajorsFrom(versions, m, i + 1);
      var v :- VersionOrRaise(versions[i]);
      var low :- WholeOf(m);
      Ok(if Major(v) > Major(low) then later + {Major(v)} else later)
  }

  /** The iOS branch: the majors found as strings, or `[str(Version(min_version))]` when there are none. */
  function IosSelection(versions: seq<string>, m: MinVersion): Outcome<Selection> {
    var majors :- IosMajorsFrom(versions, m, 0);
    if majors == {} then
      var low :- WholeOf(m);
      Ok(Listed([Format(low)]))
    else
      Ok(Unordered(set k | k in majors :: NatToString(k)))
  }

  /** A key visited late in the iOS loop that raises decides the outcome of the whole loop. */
  lemma {:induction false} IosRaise(versions: seq<string>, m: MinVersion, i: nat)
    requires i <= |versions| && IosMajorsFrom(versions, m, i).Raise?
    ensures IosMajorsFrom(versions, m, 0) == IosMajorsFrom(versions, m, i)
  {
    if i > 0 {
      IosRaise(versions, m, i - 1);
    }
  }

  /** The major of key `j` when it parses and lies above the minimum's major. */
  predicate AboveMinMajor(versions: seq<string>, j: int, low: Version) {
    0 <= j < |versions| && ParseVersion(versions[j]).Some? && Major(ParseVersion(versions[j]).value) > Major(low)
  }

  /** The iOS loop succeeds exactly when every key parses and, if there are keys, so does `min_version`. */
  lemma {:induction false} IosMajorsOk(versions: seq<string>, m: MinVersion, i: nat)
    requires i <= |versions|
    ensures IosMajorsFrom(versions, m, i).Ok? <==>
      (forall j :: i <= j < |versions| ==> ParseVersion(versions[j]).Some?) && (i < |versions| ==> WholeOf(m).Ok?)
    decreases |versions| - i
  {
    if i < |versions| {
      IosMajorsOk(versions, m, i + 1);
    }
  }

  /** On success the set holds exactly the majors above the minimum's major. */
  lemma {:induction false} IosMajorsMeans(versions: seq<string>, m: MinVersion, i: nat)
    requires i <= |versions| && IosMajorsFrom(versions, m, i).Ok? && WholeOf(m).Ok?
    ensures forall k :: k in IosMajorsFrom(versions, m, i).value <==>
      exists j :: i <= j && AboveMinMajor(versions, j, WholeOf(m).value) && k == Major(ParseVersion(versions[j]).value)
    decreases |versions| - i
  {
    if i < |versions| {
      IosMajorsMeans(versions, m, i + 1);
    }
  }

  /**
    For firefox_ios: the majors strictly above `min_version`'s major, as
    strings; `[str(Version(min_version))]` when there is none.
   */
  lemma IosSelectionMeans(versions: seq<string>, m: MinVersion)
    requires versions != [] && IosSelection(versions, m).Ok?
    ensures WholeOf(m).Ok?
    ensures var low := WholeOf(m).value;
      var sel := IosSelection(versions, m).value;
      ((exists j :: AboveMinMajor(versions, j, low)) <==> sel.Unordered?) &&
      (sel.Unordered? ==> forall t :: t in sel.members <==>
         exists j :: AboveMinMajor(versions, j, low) && t == NatToString(Major(ParseVersion(versions[j]).value))) &&
      (!sel.Unordered? ==> sel == Listed([Format(low)]))
  {
    IosMajorsOk(versions, m, 0);
    IosMajorsMeans(versions, m, 0);
    var low := WholeOf(m).value;
    var ms := IosMajorsFrom(versions, m, 0).value;
    if exists j :: AboveMinMajor(versions, j, low) {
      var j :| AboveMinMajor(versions, j, low);
      assert Major(ParseVersion(versions[j]).value) in ms;
    }
  }

  /**
    `get_firefox_verions(app_name, channel, min_version)` with the release
    list of whattrainisitnow.com passed in as `versions` (its keys, in order).
   */
  method GetFirefoxVersions(appName: string, channel: string, minVersion: MinVersion, versions: seq<string>)
      returns (r: Outcome<Selection>)
    ensures versions == [] ==> r == Raise(IndexError)
    ensures versions != [] && ParseVersion(Last(versions)).None? ==> r == Raise(InvalidVersion)
    ensures versions != [] && ParseVersion(Last(versions)).Some? ==>
      var newest := ParseVersion(Last(versions)).value;
      var desktop := IsSubstring("desktop", appName);
      var cs := Considered(versions, minVersion);
      if IsSubstring("firefox_ios", appName) then r == IosSelection(versions, minVersion)
      else if channel == "release" then
        (cs.Raise? ==> r == Raise(cs.error)) &&
        (cs.Ok? ==>
           r.Ok? && r.value.Listed? &&
           exists out :: LatestPerGroup(cs.value, out) &&
             r.value.items == Render(out) + (if desktop then ["latest", "latest-beta"] else []))
      else if channel == "nightly" then r == Ok(Literal("['latest']"))
      else if channel == "beta" then
        r == Ok(if desktop then Literal("['latest-beta']") else Listed([NatToString(Major(newest) + 1) + ".0b"]))
      else r == Ok(Nothing)
  {
    if versions == [] {
      return Raise(IndexError);
    }
    var newest := VersionOrRaise(versions[|versions| - 1]);
    if newest.Raise? {
      return Raise(newest.error);
    }
    var nonDesktopBeta := [NatToString(Major(newest.value) + 1) + ".0b"];
    if IsSubstring("firefox_ios", appName) {
      var test: set<nat> := {};
      var i := |versions|;
      while i > 0
        invariant 0 <= i <= |versions|
        invariant IosMajorsFrom(versions, minVersion, i) == Ok(test)
      {
        i := i - 1;
        var v := VersionOrRaise(versions[i]);
        if v.Raise? {
          IosRaise(versions, minVersion, i);
          return Raise(v.error);
        }
        var low := WholeOf(minVersion);
        if low.Raise? {
          IosRaise(versions, minVersion, i);
          return Raise(low.error);
        }
        if Major(v.value) > Major(low.value) {
          test := test + {Major(v.value)};
        }
      }
      if test == {} {
        return Ok(Listed([Format(WholeOf(minVersion).value)]));
      }
      return Ok(Unordered(set k | k in test :: NatToString(k)));
    }
    if channel == "release" {
      var latest := GetLatestVersions(versions, minVersion);
      if latest.Raise? {
        return Raise(latest.error);
      }
      var items := latest.value;
      if IsSubstring("desktop", appName) {
        items := items + ["latest", "latest-beta"];
      }
      return Ok(Listed(items));
    } else if channel == "nightly" {
      return Ok(Literal("['latest']"));
    } else if channel == "beta" {
      if IsSubstring("desktop", appName) {
        return Ok(Literal("['latest-beta']"));
      }
      return Ok(Listed(nonDesktopBeta));
    }
    return Ok(Nothing);
  }

  // ---------------------------------------------------------------------
  // Selection of the experiments to test
  // ---------------------------------------------------------------------

  /**
    One entry of the Experimenter API's list: its slug, its `publishedDate`
    as an ordered timestamp (None for null), and the rest of the record.
   */
  datatype Experiment = Experiment(slug: string, published: Option<int>, record: Json)

  /** `[_ for _ in current_experiments if _['publishedDate'] is not None]` */
  function PublishedOnly(xs: seq<Experiment>): (r: seq<Experiment>)
    ensures forall e :: e in r <==> e in xs && e.published.Some?
    ensures forall i :: 0 <= i < |r| ==> r[i].published.Some?
  {
    if xs == [] then []
    else (if xs[0].published.Some? then [xs[0]] else []) + PublishedOnly(xs[1..])
  }

  /** The date the sort uses; only published experiments are sorted. */
  function Date(e: Experiment): int {
    if e.published.Some? then e.published.value else 0
  }

  predicate ByDate(xs: seq<Experiment>) {
    forall i, j :: 0 <= i < j < |xs| ==> Date(xs[i]) <= Date(xs[j])
  }

  lemma InsertedMember(x: Experiment, s: seq<Experiment>, rest: seq<Experiment>)
    requires s != [] && multiset(rest) == multiset(s[1..]) + multiset{x}
    ensures forall e :: e in rest ==> e == x || e in s[1..]
  {
    forall e | e in rest ensures e == x || e in s[1..] {
      assert e in multiset(rest);
    }
  }

  /** Putting the first entry back in front of the insertion into the others keeps the order. */
  lemma InsertBehindHead(x: Experiment, s: seq<Experiment>, rest: seq<Experiment>)
    requires s != [] && ByDate(s) && Date(s[0]) < Date(x)
    requires ByDate(rest) && multiset(rest) == multiset(s[1..]) + multiset{x}
    ensures ByDate([s[0]] + rest)
    ensures multiset([s[0]] + rest) == multiset(s) + multiset{x}
  {
    InsertedMember(x, s, rest);
    assert forall e :: e in s[1..] ==> Date(s[0]) <= Date(e);
    assert forall e :: e in rest ==> Date(s[0]) <= Date(e);
    var r := [s[0]] + rest;
    forall i, j | 0 <= i < j < |r| ensures Date(r[i]) <= Date(r[j]) {
      assert r[j] == rest[j - 1];
      if i > 0 {
        assert r[i] == rest[i - 1];
      } else {
        assert rest[j - 1] in rest;
      }
    }
    assert [s[0]] + s[1..] == s;
  }

  /** Insertion before the first later-dated entry, so that equal dates keep their order. */
  function InsertByDate(x: Experiment, s: seq<Experiment>): (r: seq<Experiment>)
    requires ByDate(s)
    ensures ByDate(r)
    ensures multiset(r) == multiset(s) + multiset{x}
  {
    if s == [] then [x]
    else if Date(x) <= Date(s[0]) then [x] + s
    else
      var rest := InsertByDate(x, s[1..]);
      InsertBehindHead(x, s, rest);
      [s[0]] + rest
  }

  /** `sorted(current_experiments, key=publishedDate)` */
  function SortByDate(xs: seq<Experiment>): (r: seq<Experiment>)
    ensures ByDate(r)
    ensures multiset(r) == multiset(xs)
  {
    if xs == [] then []
    else
      assert [xs[0]] + xs[1..] == xs;
      InsertByDate(xs[0], SortByDate(xs[1..]))
  }

  /**
    `experiment["slug"] != previous_experiment` fails. `previous` is the
    content of the previous run's file, or None when there was no file
    (the script then compares against `[]`, which no slug equals).
   */
  predicate SameAsPrevious(e: Experiment, previous: Option<string>) {
    previous.Some? && e.slug == previous.value
  }

  /** Where the walk from the newest experiment backwards stops. */
  function RunStart(ordered: seq<Experiment>, previous: Option<string>): (k: nat)
    ensures k <= |ordered|
    ensures forall j :: k <= j < |ordered| ==> !SameAsPrevious(ordered[j], previous)
    ensures k > 0 ==> SameAsPrevious(ordered[k - 1], previous)
  {
    if ordered == [] then 0
    else if SameAsPrevious(ordered[|ordered| - 1], previous) then |ordered|
    else RunStart(ordered[..|ordered| - 1], previous)
  }

  /** A Python dict from slug to experiment, as its entries in insertion order. */
  type Dict = seq<(string, Experiment)>

  predicate DictHasKey(d: Dict, key: string) {
    exists i :: 0 <= i < |d| && d[i].0 == key
  }

  predicate DistinctKeys(d: Dict) {
    forall i, j :: 0 <= i < j < |d| ==> d[i].0 != d[j].0
  }

  /** The position of `key` in `d`, or `|d|` where it is absent. */
  function KeyIndex(d: Dict, key: string): (i: nat)
    ensures i <= |d|
    ensures i < |d| ==> d[i].0 == key
    ensures forall j :: 0 <= j < i ==> d[j].0 != key
  {
    if d == [] then 0
    else if d[0].0 == key then 0
    else 1 + KeyIndex(d[1..], key)
  }

  /** `d[key] = value`: an existing entry is replaced where it stands, a new one goes last. */
  function DictSet(d: Dict, key: string, value: Experiment): (r: Dict)
    requires DistinctKeys(d)
    ensures DistinctKeys(r) && |r| > 0
    ensures forall s :: DictHasKey(r, s) <==> DictHasKey(d, s) || s == key
    ensures forall i :: 0 <= i < |r| && r[i].0 == key ==> r[i].1 == value
    ensures forall p :: p in r ==> p.0 == key || p in d
    ensures forall p :: p in d && p.0 != key ==> p in r
    ensures d != [] ==> r[0].0 == d[0].0
  {
    var i := KeyIndex(d, key);
    if i < |d| then
      var r := d[i := (key, value)];
      assert forall s :: DictHasKey(r, s) <==> DictHasKey(d, s) by {
        forall s ensures DictHasKey(r, s) <==> DictHasKey(d, s) {
          if DictHasKey(r, s) {
            var j :| 0 <= j < |r| && r[j].0 == s;
            assert d[j].0 == s;
          }
          if DictHasKey(d, s) {
            var j :| 0 <= j < |d| && d[j].0 == s;
            assert r[j].0 == s;
          }
        }
      }
      assert forall p :: p in d && p.0 != key ==> p in r by {
        forall p | p in d && p.0 != key ensures p in r {
          var j :| 0 <= j < |d| && d[j] == p;
          assert r[j] == p;
        }
      }
      r
    else
      var r := d + [(key, value)];
      assert forall s :: DictHasKey(r, s) <==> DictHasKey(d, s) || s == key by {
        forall s ensures DictHasKey(r, s) <==> DictHasKey(d, s) || s == key {
          if DictHasKey(r, s) && s != key {
            var j :| 0 <= j < |r| && r[j].0 == s;
            assert d[j].0 == s;
          }
          if DictHasKey(d, s) {
            var j :| 0 <= j < |d| && d[j].0 == s;
            assert r[j].0 == s;
          }
          assert r[|d|].0 == key;
        }
      }
      r
  }

  /** `testing_list` after the walk has visited `ordered[i..]`, newest first. */
  function Inserted(ordered: seq<Experiment>, i: nat): (d: Dict)
    requires i <= |ordered|
    ensures DistinctKeys(d)
    decreases |ordered| - i
  {
    if i == |ordered| then []
    else DictSet(Inserted(ordered, i + 1), ordered[i].slug, ordered[i])
  }

  /**
    The walk's dict: one entry per slug met, holding the oldest experiment
    with that slug in the walked range (later assignments overwrite), and
    the newest experiment's slug first.
   */
  lemma {:induction false} InsertedMeans(ordered: seq<Experiment>, i: nat)
    requires i <= |ordered|
    ensures DistinctKeys(Inserted(ordered, i))
    ensures forall s :: DictHasKey(Inserted(ordered, i), s) <==> exists j :: i <= j < |ordered| && ordered[j].slug == s
    ensures forall p :: p in Inserted(ordered, i) ==>
      exists j :: i <= j < |ordered| && ordered[j] == p.1 && p.1.slug == p.0 &&
        forall j' :: i <= j' < j ==> ordered[j'].slug != p.0
    ensures i < |ordered| ==> Inserted(ordered, i)[0].0 == ordered[|ordered| - 1].slug
    decreases |ordered| - i
  {
    if i < |ordered| {
      InsertedMeans(ordered, i + 1);
      var d := Inserted(ordered, i + 1);
      var r := Inserted(ordered, i);
      forall p | p in r
        ensures exists j :: i <= j < |ordered| && ordered[j] == p.1 && p.1.slug == p.0 &&
                   forall j' :: i <= j' < j ==> ordered[j'].slug != p.0
      {
        if p.0 == ordered[i].slug {
          var k :| 0 <= k < |r| && r[k] == p;
          assert p.1 == ordered[i];
        } else {
          assert p in d;
        }
      }
    }
  }

  /** Below the start of the run, the entry just before the walk's position decides whether it stops. */
  lemma RunStartBound(ordered: seq<Experiment>, previous: Option<string>, i: nat)
    requires RunStart(ordered, previous) <= i <= |ordered| && i > 0
    ensures SameAsPrevious(ordered[i - 1], previous) <==> i == RunStart(ordered, previous)
  {
  }

  /** The walk over `reversed(current_experiments)` with its `break`. */
  method WalkBack(ordered: seq<Experiment>, previous: Option<string>) returns (testing: Dict)
    ensures testing == Inserted(ordered, RunStart(ordered, previous))
  {
    ghost var k := RunStart(ordered, previous);
    testing := [];
    var i := |ordered|;
    while i > 0
      invariant k <= i <= |ordered|
      invariant testing == Inserted(ordered, i)
    {
      RunStartBound(ordered, previous, i);
      if SameAsPrevious(ordered[i - 1], previous) {
        break;
      }
      testing := DictSet(testing, ordered[i - 1].slug, ordered[i - 1]);
      i := i - 1;
    }
  }

  /**
    Lines 122-131 of the script: the published experiments sorted by date,
    walked from the newest backwards into `testing_list` until the slug of
    the previous run's last experiment.
   */
  method SelectNewExperiments(current: seq<Experiment>, previous: Option<string>) returns (testing: Dict)
    ensures var ordered := SortByDate(PublishedOnly(current));
      testing == Inserted(ordered, RunStart(ordered, previous))
  {
    var ordered := SortByDate(PublishedOnly(current));
    testing := WalkBack(ordered, previous);
  }

  /**
    What the walk collects from the date-ordered list: none with the
    previous slug, every slug after the previous one's position, each slug
    once with its oldest experiment in that range, the newest slug first.
   */
  lemma WalkMeans(ordered: seq<Experiment>, previous: Option<string>)
    ensures var k := RunStart(ordered, previous);
      var testing := Inserted(ordered, k);
      DistinctKeys(testing) &&
      (forall s :: DictHasKey(testing, s) <==> exists j :: k <= j < |ordered| && ordered[j].slug == s) &&
      (forall p :: p in testing ==>
         p.0 == p.1.slug && !SameAsPrevious(p.1, previous) &&
         exists j :: k <= j < |ordered| && ordered[j] == p.1 &&
                     forall j' :: k <= j' < j ==> ordered[j'].slug != p.0) &&
      (k < |ordered| ==> testing[0].0 == ordered[|ordered| - 1].slug) &&
      (k > 0 ==> SameAsPrevious(ordered[k - 1], previous))
  {
    InsertedMeans(ordered, RunStart(ordered, previous));
  }

  /** Everything selected is a published experiment of the API's list. */
  lemma SelectionPublished(current: seq<Experiment>, previous: Option<string>)
    ensures var ordered := SortByDate(PublishedOnly(current));
      forall p :: p in Inserted(ordered, RunStart(ordered, previous)) ==> p.1 in current && p.1.published.Some?
  {
    var ordered := SortByDate(PublishedOnly(current));
    var k := RunStart(ordered, previous);
    InsertedMeans(ordered, k);
    forall p | p in Inserted(ordered, k) ensures p.1 in current && p.1.published.Some? {
      var j :| k <= j < |ordered| && ordered[j] == p.1;
      assert p.1 in multiset(ordered);
    }
  }

  /** Without a previous file, every published experiment's slug is selected. */
  lemma NoPreviousSelectsAll(current: seq<Experiment>)
    ensures var ordered := SortByDate(PublishedOnly(current));
      forall e :: e in current && e.published.Some? ==> DictHasKey(Inserted(ordered, RunStart(ordered, None)), e.slug)
  {
    var ordered := SortByDate(PublishedOnly(current));
    InsertedMeans(ordered, RunStart(ordered, None));
    forall e | e in current && e.published.Some?
      ensures exists j :: 0 <= j < |ordered| && ordered[j].slug == e.slug
    {
      assert e in multiset(ordered);
      var j :| 0 <= j < |ordered| && ordered[j] == e;
    }
  }
}

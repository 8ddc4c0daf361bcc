/**
  The Android and iOS test fixtures: the Nimbus enrollment correlator that
  polls the ping server for `nimbus_events` records, the experiment URL
  built from a slug, and the marker rule that selects tests. The two
  platforms' files differ only in how a ping's `events` entry is read.
 */
module NimbusConftest {
  import opened Text
  import opened PyJson
  import opened Polling

  datatype Platform = Android | Ios

  /**
    The events a ping contributes before filtering. Android reads
    `item.get("events")` and skips a falsy value; iOS reads
    `item.get("events", [])` and iterates whatever is there.
   */
  function EventItems(platform: Platform, item: Json): Outcome<seq<Json>> {
    match platform
    case Android =>
      var events :- Get(item, "events", Null);
      if Truthy(events) then Iter(events) else Ok([])
    case Ios =>
      var events :- Get(item, "events", Arr([]));
      Iter(events)
  }

  /**
    Whether an event is a Nimbus enrollment record: it has a category that
    mentions nimbus events and an `extra` dict with a branch. The four tests
    run left to right and stop at the first false one, so a later subscript
    is reached (and may raise) only when the earlier tests passed.
   */
  function IsCandidate(event: Json): Outcome<bool> {
    var hasCategory :- In(Str("category"), event);
    if !hasCategory then Ok(false)
    else
      var category :- Subscript(event, "category");
      var nimbus :- In(Str("nimbus_events"), category);
      if !nimbus then Ok(false)
      else
        var hasExtra :- In(Str("extra"), event);
        if !hasExtra then Ok(false)
        else
          var extra :- Subscript(event, "extra");
          In(Str("branch"), extra)
  }

  /** The candidates among `events`, in order. */
  function Filter(events: seq<Json>): Outcome<seq<Json>>
    decreases |events|
  {
    if events == [] then Ok([])
    else
      var keep :- IsCandidate(events[0]);
      var rest :- Filter(events[1..]);
      Ok(if keep then [events[0]] + rest else rest)
  }

  /** The `events` list the nested loops build from the pings in `items`, in arrival order. */
  function Candidates(platform: Platform, items: seq<Json>): Outcome<seq<Json>>
    decreases |items|
  {
    if items == [] then Ok([])
    else
      var own :- EventItems(platform, items[0]);
      var kept :- Filter(own);
      var rest :- Candidates(platform, items[1..]);
      Ok(kept + rest)
  }

  /** The event names a reason accepts. */
  function ReasonNames(reason: Json): set<string> {
    if reason == Str("enrollment") then {"enrollment"}
    else if reason == Str("unenrollment") then {"unenrollment", "disqualification"}
    else {}
  }

  /**
    An enrollment check accepts only enrollment events; an unenrollment
    check accepts unenrollment and disqualification events. Both sides are
    compared with Python's `==`.
   */
  predicate NameMatches(reason: Json, name: Json) {
    (PyEq(reason, Str("enrollment")) && PyEq(name, Str("enrollment"))) ||
    (PyEq(reason, Str("unenrollment")) &&
      (PyEq(name, Str("unenrollment")) || PyEq(name, Str("disqualification"))))
  }

  /**
    The second loop: for a candidate whose name suits the reason, build the
    `TelemetryModel` from `extra["branch"]` and `extra["experiment"]` (a
    missing key raises) and compare it with the requested one field by field.
   */
  function MatchEvents(events: seq<Json>, reason: Json, branch: Json, experiment: Json): Outcome<bool>
    decreases |events|
  {
    if events == [] then Ok(false)
    else
      var name :- Get(events[0], "name", Null);
      if NameMatches(reason, name) then
        var extra :- Subscript(events[0], "extra");
        var b :- Subscript(extra, "branch");
        var e :- Subscript(extra, "experiment");
        if PyEq(b, branch) && PyEq(e, experiment) then Ok(true)
        else MatchEvents(events[1..], reason, branch, experiment)
      else MatchEvents(events[1..], reason, branch, experiment)
  }

  /** One iteration over the ping list `data`: any exception escapes; no match means a 5-second sleep. */
  function NimbusStep(platform: Platform, data: Json, reason: Json, branch: Json, experiment: Json): Step<bool> {
    match Iter(data)
    case Raise(e) => Fail(e)
    case Ok(items) =>
      match Candidates(platform, items)
      case Raise(e) => Fail(e)
      case Ok(events) =>
        match MatchEvents(events, reason, branch, experiment)
        case Raise(e) => Fail(e)
        case Ok(true) => Hit(true)
        case Ok(false) => Miss
  }

  /** `_check_ping_for_experiment(branch, experiment, reason)` over the ping lists fetched in the 5-minute window. */
  method CheckPingForExperiment(platform: Platform, snapshots: seq<Json>, branch: Json, experiment: Json, reason: Json)
    returns (v: Verdict<bool>, sleeps: nat)
    ensures v == Settle(Steps(snapshots, (data: Json) => NimbusStep(platform, data, reason, branch, experiment)))
    ensures sleeps == SleepsBeforeVerdict(Steps(snapshots, (data: Json) => NimbusStep(platform, data, reason, branch, experiment)))
  {
    v, sleeps := Poll(snapshots, (data: Json) => NimbusStep(platform, data, reason, branch, experiment));
  }

  /** The name test is membership in the reason's name set; any reason but the two never matches. */
  lemma NameMatchesReasonNames(reason: Json, name: Json)
    ensures NameMatches(reason, name) <==> exists n :: n in ReasonNames(reason) && name == Str(n)
  {
    PyEqStr(reason, "enrollment");
    PyEqStr(reason, "unenrollment");
    PyEqStr(name, "enrollment");
    PyEqStr(name, "unenrollment");
    PyEqStr(name, "disqualification");
    if NameMatches(reason, name) {
      assert name.Str? && name.s in ReasonNames(reason);
    }
  }

  /** A candidate is always a dict: every other kind of value fails or raises at the first subscript. */
  lemma CandidateIsDict(event: Json)
    requires IsCandidate(event) == Ok(true)
    ensures event.Obj?
  {
  }

  /** For a dict whose `category` is a string and whose `extra` is a dict, the filter in plain terms. */
  lemma CandidateMeans(fields: seq<(string, Json)>)
    requires HasKey(fields, "category") ==> Lookup(fields, "category").Str?
    requires HasKey(fields, "extra") ==> Lookup(fields, "extra").Obj?
    ensures IsCandidate(Obj(fields)) == Ok(
      HasKey(fields, "category") && IsSubstring("nimbus_events", Lookup(fields, "category").s) &&
      HasKey(fields, "extra") && HasKey(Lookup(fields, "extra").fields, "branch"))
  {
  }

  /** On Android a ping whose `events` is missing, null or empty contributes no candidates. */
  lemma AndroidFalsyEventsContributeNothing(fields: seq<(string, Json)>)
    requires HasKey(fields, "events") ==> !Truthy(Lookup(fields, "events"))
    ensures EventItems(Android, Obj(fields)) == Ok([])
  {
  }

  /**
    On iOS a missing `events` counts as an empty list, but a null one is
    iterated and raises, which Android guards against.
   */
  lemma IosEvents(fields: seq<(string, Json)>)
    ensures !HasKey(fields, "events") ==> EventItems(Ios, Obj(fields)) == Ok([])
    ensures HasKey(fields, "events") && Lookup(fields, "events") == Null ==>
              EventItems(Ios, Obj(fields)) == Raise(TypeError) && EventItems(Android, Obj(fields)) == Ok([])
  {
  }

  /** The filter keeps exactly the candidates among the events of a ping, whatever else they are. */
  lemma {:induction false} FilterKeepsCandidates(events: seq<Json>)
    requires forall i :: 0 <= i < |events| ==> IsCandidate(events[i]).Ok?
    ensures Filter(events).Ok?
    ensures forall x :: x in Filter(events).value <==> x in events && IsCandidate(x) == Ok(true)
    decreases |events|
  {
    if events != [] {
      assert forall i :: 0 <= i < |events[1..]| ==> events[1..][i] == events[i + 1];
      FilterKeepsCandidates(events[1..]);
      assert events == [events[0]] + events[1..];
    }
  }

  /** Every ping's `events` can be read, and every event in them can be tested. */
  predicate Readable(platform: Platform, items: seq<Json>) {
    forall i :: 0 <= i < |items| ==>
      EventItems(platform, items[i]).Ok? &&
      forall x :: x in EventItems(platform, items[i]).value ==> IsCandidate(x).Ok?
  }

  /**
    The collected `events` list does not raise when every ping is readable,
    and it holds exactly the candidates among the events of the pings.
   */
  lemma {:induction false} CandidatesMeans(platform: Platform, items: seq<Json>)
    requires Readable(platform, items)
    ensures Candidates(platform, items).Ok?
    ensures forall x :: x in Candidates(platform, items).value <==>
      IsCandidate(x) == Ok(true) && exists i :: 0 <= i < |items| && x in EventItems(platform, items[i]).value
    decreases |items|
  {
    if items != [] {
      var tail := items[1..];
      assert forall i :: 0 <= i < |tail| ==> tail[i] == items[i + 1];
      assert Readable(platform, tail);
      CandidatesMeans(platform, tail);
      var own := EventItems(platform, items[0]).value;
      assert forall i :: 0 <= i < |own| ==> own[i] in own;
      FilterKeepsCandidates(own);
      var all := Candidates(platform, items).value;
      assert all == Filter(own).value + Candidates(platform, tail).value;
      forall x
        ensures x in all <==>
          IsCandidate(x) == Ok(true) && exists i :: 0 <= i < |items| && x in EventItems(platform, items[i]).value
      {
        if IsCandidate(x) == Ok(true) && exists i :: 0 <= i < |items| && x in EventItems(platform, items[i]).value {
          var i :| 0 <= i < |items| && x in EventItems(platform, items[i]).value;
          if i > 0 {
            assert x in EventItems(platform, tail[i - 1]).value;
          }
        }
        if x in Candidates(platform, tail).value {
          var i :| 0 <= i < |tail| && x in EventItems(platform, tail[i]).value;
          assert x in EventItems(platform, items[i + 1]).value;
        }
      }
    }
  }

  /** An event record with a name and an `extra` dict holding both `branch` and `experiment`. */
  predicate Complete(event: Json) {
    event.Obj? &&
    (HasKey(event.fields, "extra") && Lookup(event.fields, "extra").Obj?) &&
    HasKey(Lookup(event.fields, "extra").fields, "branch") &&
    HasKey(Lookup(event.fields, "extra").fields, "experiment")
  }

  function Name(event: Json): Json
    requires event.Obj?
  {
    if HasKey(event.fields, "name") then Lookup(event.fields, "name") else Null
  }

  function ExtraField(event: Json, key: string): Json
    requires Complete(event) && (key == "branch" || key == "experiment")
  {
    Lookup(Lookup(event.fields, "extra").fields, key)
  }

  /** A complete record whose name suits the reason and whose `extra` names the requested branch and experiment. */
  predicate Matching(event: Json, reason: Json, branch: Json, experiment: Json) {
    Complete(event) && NameMatches(reason, Name(event)) &&
    PyEq(ExtraField(event, "branch"), branch) && PyEq(ExtraField(event, "experiment"), experiment)
  }

  lemma MatchEventsHead(events: seq<Json>, reason: Json, branch: Json, experiment: Json)
    requires events != [] && Complete(events[0])
    ensures MatchEvents(events, reason, branch, experiment) ==
      if Matching(events[0], reason, branch, experiment) then Ok(true)
      else MatchEvents(events[1..], reason, branch, experiment)
  {
  }

  /** Over complete records a poll matches exactly when one of them is a matching record. */
  lemma {:induction false} MatchEventsMeans(events: seq<Json>, reason: Json, branch: Json, experiment: Json)
    requires forall i :: 0 <= i < |events| ==> Complete(events[i])
    ensures MatchEvents(events, reason, branch, experiment) ==
      Ok(exists i :: 0 <= i < |events| && Matching(events[i], reason, branch, experiment))
    decreases |events|
  {
    if events != [] {
      var tail := events[1..];
      assert forall i :: 0 <= i < |tail| ==> tail[i] == events[i + 1];
      MatchEventsMeans(tail, reason, branch, experiment);
      MatchEventsHead(events, reason, branch, experiment);
      if exists i :: 0 <= i < |events| && Matching(events[i], reason, branch, experiment) {
        var i :| 0 <= i < |events| && Matching(events[i], reason, branch, experiment);
        if i > 0 {
          assert tail[i - 1] == events[i];
        }
      }
    }
  }

  /** A reason other than enrollment or unenrollment never matches a list of dicts. */
  lemma {:induction false} OtherReasonNeverMatches(events: seq<Json>, reason: Json, branch: Json, experiment: Json)
    requires reason != Str("enrollment") && reason != Str("unenrollment")
    requires forall i :: 0 <= i < |events| ==> events[i].Obj?
    ensures MatchEvents(events, reason, branch, experiment) == Ok(false)
    decreases |events|
  {
    if events != [] {
      assert forall i :: 0 <= i < |events[1..]| ==> events[1..][i] == events[i + 1];
      OtherReasonNeverMatches(events[1..], reason, branch, experiment);
      PyEqStr(reason, "enrollment");
      PyEqStr(reason, "unenrollment");
    }
  }

  /** A name-matching candidate whose `extra` lacks `experiment` raises KeyError instead of being skipped. */
  lemma MissingExperimentRaises(event: Json, rest: seq<Json>, reason: Json, branch: Json, experiment: Json)
    requires event.Obj? && NameMatches(reason, Name(event))
    requires HasKey(event.fields, "extra") && Lookup(event.fields, "extra").Obj?
    requires HasKey(Lookup(event.fields, "extra").fields, "branch")
    requires !HasKey(Lookup(event.fields, "extra").fields, "experiment")
    ensures MatchEvents([event] + rest, reason, branch, experiment) == Raise(KeyError)
  {
    assert ([event] + rest)[0] == event;
  }

  // ---------------------------------------------------------------------
  // `fixture_experiment_url` and `pytest_runtest_setup`
  // ---------------------------------------------------------------------

  const ExperimentsPath := "/api/v6/experiments/"

  /** Where the fixture takes the URL from: built from a slug, or fetched from the Klaatu server. */
  datatype UrlSource = FromSlug(url: Option<string>) | FromKlaatuServer

  /**
    The URL for `--experiment` / `experiment_slug`: a non-empty slug builds
    it on the server named by `--experiment-server`; an unknown server
    leaves it None. An empty or absent slug falls through to the Klaatu server.
   */
  function ExperimentUrl(slug: Option<string>, server: string, prodServer: string, stageServer: string): (r: UrlSource)
    ensures r.FromSlug? <==> slug.Some? && slug.value != []
    ensures r.FromSlug? ==> (r.url.Some? <==> server in {"prod", "stage", "stage/preview"})
    ensures r.FromSlug? && r.url.Some? ==>
      var base := if server == "prod" then prodServer else stageServer;
      IsPrefix(base + ExperimentsPath, r.url.value) &&
      r.url.value[|base| + |ExperimentsPath|..] == slug.value + "/"
  {
    if slug.None? || slug.value == [] then FromKlaatuServer
    else if server == "prod" then FromSlug(Some(prodServer + ExperimentsPath + slug.value + "/"))
    else if server == "stage" || server == "stage/preview" then FromSlug(Some(stageServer + ExperimentsPath + slug.value + "/"))
    else FromSlug(None)
  }

  /** Different slugs on the same server give different URLs. */
  lemma ExperimentUrlInjective(slug1: string, slug2: string, server: string, prodServer: string, stageServer: string)
    requires slug1 != [] && slug2 != []
    requires server in {"prod", "stage", "stage/preview"}
    requires ExperimentUrl(Some(slug1), server, prodServer, stageServer) == ExperimentUrl(Some(slug2), server, prodServer, stageServer)
    ensures slug1 == slug2
  {
    var base := if server == "prod" then prodServer else stageServer;
    var u := ExperimentUrl(Some(slug1), server, prodServer, stageServer).url.value;
    assert u[|base| + |ExperimentsPath|..] == slug1 + "/" == slug2 + "/";
    assert slug1 == (slug1 + "/")[..|slug1|];
    assert slug2 == (slug2 + "/")[..|slug2|];
  }

  /** `pytest_runtest_setup`: a test with markers is skipped unless the `--experiment-feature` value names one. */
  predicate Skipped(markerNames: seq<string>, feature: Option<string>) {
    |markerNames| > 0 && (feature.None? || feature.value !in markerNames)
  }

  /** Unmarked tests always run; a marked test runs exactly when one of its markers is the feature. */
  lemma SkipRule(markerNames: seq<string>, feature: Option<string>)
    ensures markerNames == [] ==> !Skipped(markerNames, feature)
    ensures markerNames != [] ==>
      (!Skipped(markerNames, feature) <==> exists i :: 0 <= i < |markerNames| && feature == Some(markerNames[i]))
  {
  }
}

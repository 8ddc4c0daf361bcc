/**
  The desktop test fixtures' correlators: they poll the ping server or the
  browser's telemetry snapshots until an experiment shows up or a deadline
  passes, and read the Firefox version off the user agent.
 */
module DesktopConftest {
  import opened Text
  import opened PyJson
  import opened Polling

  // ---------------------------------------------------------------------
  // `_check_ping_for_experiment`
  // ---------------------------------------------------------------------

  /**
    The `experiments_data` comprehension over the pings in `items`:
    `item["environment"]["experiments"]` for every item whose environment
    holds `"experiments"`, evaluated item by item, so the first failing
    subscript or `in` decides the exception.
   */
  function ExperimentsData(items: seq<Json>): Outcome<seq<Json>>
    decreases |items|
  {
    if items == [] then Ok([])
    else
      var env :- Subscript(items[0], "environment");
      var has :- In(Str("experiments"), env);
      if has then
        var x :- Subscript(env, "experiments");
        var rest :- ExperimentsData(items[1..]);
        Ok([x] + rest)
      else ExperimentsData(items[1..])
  }

  /** The `for item in experiments_data` loop: the first entry holding `experiment`, subscripted by it. */
  function FindExperiment(experiment: string, xs: seq<Json>): Outcome<Option<Json>>
    decreases |xs|
  {
    if xs == [] then Ok(None)
    else
      var has :- In(Str(experiment), xs[0]);
      if has then
        var v :- Subscript(xs[0], experiment);
        Ok(Some(v))
      else FindExperiment(experiment, xs[1..])
  }

  /**
    One iteration over the ping list `data`: a KeyError in the comprehension
    is caught and the loop goes round at once; any other exception escapes;
    a found entry is returned; otherwise the loop sleeps and triggers the
    experiment loader.
   */
  function ExperimentStep(experiment: string, data: Json): Step<Json> {
    match Iter(data)
    case Raise(e) => Fail(e)
    case Ok(items) =>
      match ExperimentsData(items)
      case Raise(KeyError) => Retry
      case Raise(e) => Fail(e)
      case Ok(xs) =>
        match FindExperiment(experiment, xs)
        case Raise(e) => Fail(e)
        case Ok(None) => Miss
        case Ok(Some(v)) => Hit(v)
  }

  /**
    `_check_ping_for_experiment(experiment)` over the ping lists fetched
    before the 60-second deadline. Each sleep is followed by one call of
    `trigger_experiment_loader`, so the loader runs `loaderTriggers` times.
   */
  method CheckPingForExperiment(snapshots: seq<Json>, experiment: string) returns (v: Verdict<Json>, loaderTriggers: nat)
    ensures v == Settle(Steps(snapshots, (data: Json) => ExperimentStep(experiment, data)))
    ensures loaderTriggers == SleepsBeforeVerdict(Steps(snapshots, (data: Json) => ExperimentStep(experiment, data)))
  {
    v, loaderTriggers := Poll(snapshots, (data: Json) => ExperimentStep(experiment, data));
  }

  /** Every ping is a dict, and every environment present is a dict. */
  predicate WellShaped(items: seq<Json>) {
    forall i :: 0 <= i < |items| ==>
      items[i].Obj? &&
      (HasKey(items[i].fields, "environment") ==> Lookup(items[i].fields, "environment").Obj?)
  }

  /** Over well-shaped pings the comprehension fails exactly when some ping has no environment, and then with KeyError. */
  lemma {:induction false} ExperimentsDataShaped(items: seq<Json>)
    requires WellShaped(items)
    ensures ExperimentsData(items).Raise? <==>
      exists i :: 0 <= i < |items| && !HasKey(items[i].fields, "environment")
    ensures ExperimentsData(items).Raise? ==> ExperimentsData(items).error == KeyError
    decreases |items|
  {
    if items != [] {
      assert WellShaped(items[1..]) by {
        forall i | 0 <= i < |items[1..]| ensures items[1..][i] == items[i + 1] { }
      }
      ExperimentsDataShaped(items[1..]);
      if exists i :: 0 <= i < |items[1..]| && !HasKey(items[1..][i].fields, "environment") {
        var i :| 0 <= i < |items[1..]| && !HasKey(items[1..][i].fields, "environment");
        assert items[i + 1] == items[1..][i];
      }
      if exists i :: 0 <= i < |items| && !HasKey(items[i].fields, "environment") {
        var i :| 0 <= i < |items| && !HasKey(items[i].fields, "environment");
        if i > 0 {
          assert items[1..][i - 1] == items[i];
        }
      }
    }
  }

  /**
    A single ping without an `environment` makes the iteration retry
    (no sleep, no loader trigger); with every ping carrying one the
    iteration never retries.
   */
  lemma MissingEnvironmentRetries(experiment: string, items: seq<Json>)
    requires WellShaped(items)
    ensures ExperimentStep(experiment, Arr(items)) == Retry <==>
      exists i :: 0 <= i < |items| && !HasKey(items[i].fields, "environment")
  {
    ExperimentsDataShaped(items);
  }

  /** A ping whose environment has no `experiments` key contributes nothing to the comprehension. */
  lemma {:induction false} PingWithoutExperimentsSkipped(a: seq<Json>, p: Json, b: seq<Json>)
    requires p.Obj? && HasKey(p.fields, "environment")
    requires Lookup(p.fields, "environment").Obj?
    requires !HasKey(Lookup(p.fields, "environment").fields, "experiments")
    ensures ExperimentsData(a + [p] + b) == ExperimentsData(a + b)
    decreases |a|
  {
    if a == [] {
      assert [p] + b == a + [p] + b;
      assert ([p] + b)[1..] == b;
      assert a + b == b;
    } else {
      PingWithoutExperimentsSkipped(a[1..], p, b);
      assert (a + [p] + b)[0] == a[0] && (a + [p] + b)[1..] == a[1..] + [p] + b;
      assert (a + b)[0] == a[0] && (a + b)[1..] == a[1..] + b;
    }
  }

  /**
    Over dicts, the loop finds the first entry holding `experiment`, in
    arrival order, and returns its value; with no such entry it finds nothing.
   */
  lemma {:induction false} FindExperimentFirst(experiment: string, xs: seq<Json>)
    requires forall i :: 0 <= i < |xs| ==> xs[i].Obj?
    ensures FindExperiment(experiment, xs) == Ok(None) <==>
      forall i :: 0 <= i < |xs| ==> !HasKey(xs[i].fields, experiment)
    ensures forall k :: 0 <= k < |xs| && HasKey(xs[k].fields, experiment) &&
                        (forall j :: 0 <= j < k ==> !HasKey(xs[j].fields, experiment)) ==>
              FindExperiment(experiment, xs) == Ok(Some(Lookup(xs[k].fields, experiment)))
    decreases |xs|
  {
    if xs != [] {
      FindExperimentFirst(experiment, xs[1..]);
      forall k | 0 <= k < |xs| && HasKey(xs[k].fields, experiment) &&
                 (forall j :: 0 <= j < k ==> !HasKey(xs[j].fields, experiment))
        ensures FindExperiment(experiment, xs) == Ok(Some(Lookup(xs[k].fields, experiment)))
      {
        if k > 0 {
          assert xs[1..][k - 1] == xs[k];
          assert forall j :: 0 <= j < k - 1 ==> xs[1..][j] == xs[j + 1];
        }
      }
      if !HasKey(xs[0].fields, experiment) {
        assert (forall i :: 0 <= i < |xs| ==> !HasKey(xs[i].fields, experiment)) <==>
               (forall i :: 0 <= i < |xs[1..]| ==> !HasKey(xs[1..][i].fields, experiment)) by {
          if forall i :: 0 <= i < |xs[1..]| ==> !HasKey(xs[1..][i].fields, experiment) {
            forall i | 0 <= i < |xs| ensures !HasKey(xs[i].fields, experiment) {
              if i > 0 {
                assert xs[i] == xs[1..][i - 1];
              }
            }
          }
        }
      }
    }
  }

  /** An empty ping store never matches: the loop sleeps and triggers the loader after every poll, then returns False. */
  lemma EmptyStoreNeverMatches(experiment: string, n: nat)
    ensures Settle(Steps(seq(n, _ => Arr([])), (data: Json) => ExperimentStep(experiment, data))) == NotFound
    ensures SleepsBeforeVerdict(Steps(seq(n, _ => Arr([])), (data: Json) => ExperimentStep(experiment, data))) == n
  {
    var steps := Steps(seq(n, _ => Arr([])), (data: Json) => ExperimentStep(experiment, data));
    assert forall i :: 0 <= i < |steps| ==> steps[i] == ExperimentStep(experiment, Arr([]));
    AllMisses(steps);
  }

  // ---------------------------------------------------------------------
  // `_telemetry_event_check`
  // ---------------------------------------------------------------------

  /** The value of `experiment and event`: `experiment` when it is falsy, `event` otherwise. */
  function EventNeedle(experiment: Json, event: Json): Json {
    if Truthy(experiment) then event else experiment
  }

  /** `needle in item` for each item in turn: true at the first hit; the first raising test escapes. */
  function AnyIn(needle: Json, items: seq<Json>): Outcome<bool>
    decreases |items|
  {
    if items == [] then Ok(false)
    else
      var hit :- In(needle, items[0]);
      if hit then Ok(true) else AnyIn(needle, items[1..])
  }

  /** One iteration over the event snapshot: membership in some record of `telemetry.get("parent")`. */
  function EventStep(telemetry: Json, experiment: Json, event: Json): Step<bool> {
    match Get(telemetry, "parent", Null)
    case Raise(e) => Fail(e)
    case Ok(parent) =>
      match Iter(parent)
      case Raise(e) => Fail(e)
      case Ok(items) =>
        match AnyIn(EventNeedle(experiment, event), items)
        case Raise(e) => Fail(e)
        case Ok(true) => Hit(true)
        case Ok(false) => Miss
  }

  /**
    `_telemetry_event_check`: the snapshot is fetched once, before the loop,
    and the loop tests that same snapshot `iterations` times (as many as fit
    in 30 seconds). A miss triggers the experiment loader.
   */
  method TelemetryEventCheck(telemetry: Json, experiment: Json, event: Json, iterations: nat)
    returns (v: Verdict<bool>, loaderTriggers: nat)
    ensures v == (if iterations == 0 then NotFound
                  else match EventStep(telemetry, experiment, event)
                       case Hit(x) => Found(x)
                       case Fail(e) => Raised(e)
                       case _ => NotFound)
    ensures loaderTriggers == (if EventStep(telemetry, experiment, event).Miss? then iterations else 0)
  {
    v, loaderTriggers := Poll(seq(iterations, _ => telemetry), (t: Json) => EventStep(t, experiment, event));
    var steps := Steps(seq(iterations, _ => telemetry), (t: Json) => EventStep(t, experiment, event));
    assert steps == seq(iterations, _ => EventStep(telemetry, experiment, event));
    RepeatedStep(EventStep(telemetry, experiment, event), iterations);
  }

  /** Over event records that are lists, the check is plain membership of the needle in some record. */
  lemma {:induction false} AnyInRecords(needle: Json, items: seq<Json>)
    requires forall i :: 0 <= i < |items| ==> items[i].Arr?
    ensures AnyIn(needle, items) ==
      Ok(exists i, j :: 0 <= i < |items| && 0 <= j < |items[i].items| && PyEq(needle, items[i].items[j]))
    decreases |items|
  {
    if items != [] {
      AnyInRecords(needle, items[1..]);
      if exists i, j :: 0 <= i < |items[1..]| && 0 <= j < |items[1..][i].items| && PyEq(needle, items[1..][i].items[j]) {
        var i, j :| 0 <= i < |items[1..]| && 0 <= j < |items[1..][i].items| && PyEq(needle, items[1..][i].items[j]);
        assert items[i + 1] == items[1..][i];
      }
      if exists i, j :: 0 <= i < |items| && 0 <= j < |items[i].items| && PyEq(needle, items[i].items[j]) {
        var i, j :| 0 <= i < |items| && 0 <= j < |items[i].items| && PyEq(needle, items[i].items[j]);
        if i > 0 {
          assert items[1..][i - 1] == items[i];
        }
      }
    }
  }

  /** With a non-empty experiment name, the check only looks for `event`: the name itself is never compared. */
  lemma ExperimentNameIgnored(telemetry: Json, experiment1: Json, experiment2: Json, event: Json)
    requires Truthy(experiment1) && Truthy(experiment2)
    ensures EventStep(telemetry, experiment1, event) == EventStep(telemetry, experiment2, event)
    ensures EventNeedle(experiment1, event) == event
  {
  }

  // ---------------------------------------------------------------------
  // `find_telemetry`
  // ---------------------------------------------------------------------

  /** Some `(item, val)` of `entries` has `scalar == item and value == val`. */
  function KeyedMatch(entries: seq<(string, Json)>, scalar: Json, value: Json): (r: bool)
    ensures r <==> exists i :: 0 <= i < |entries| && PyEq(scalar, Str(entries[i].0)) && PyEq(value, entries[i].1)
    decreases |entries|
  {
    if entries == [] then false
    else if PyEq(scalar, Str(entries[0].0)) && PyEq(value, entries[0].1) then true
    else
      var r := KeyedMatch(entries[1..], scalar, value);
      assert forall i :: 0 < i < |entries| ==> entries[i] == entries[1..][i - 1];
      r
  }

  /**
    One `keyedScalars` iteration: `telemetry["parent"].get(ping).items()`;
    a TypeError or AttributeError is caught and the loop goes round at once.
   */
  function KeyedScalarStep(telemetry: Json, ping: string, scalar: Json, value: Json): Step<bool> {
    match Subscript(telemetry, "parent")
    case Raise(TypeError) => Retry
    case Raise(e) => Fail(e)
    case Ok(parent) =>
      match Get(parent, ping, Null)
      case Raise(_) => Retry                        // AttributeError
      case Ok(scalars) =>
        match Items(scalars)
        case Raise(_) => Retry                      // AttributeError, e.g. `None.items()`
        case Ok(entries) => if KeyedMatch(entries, scalar, value) then Hit(true) else Miss
  }

  /** One `scalars` iteration: `assert telemetry["parent"].get(ping) == value`, then True. It never misses. */
  function PlainScalarStep(telemetry: Json, ping: string, value: Json): Step<bool> {
    match Subscript(telemetry, "parent")
    case Raise(e) => Fail(e)
    case Ok(parent) =>
      match Get(parent, ping, Null)
      case Raise(e) => Fail(e)
      case Ok(got) => if PyEq(got, value) then Hit(true) else Fail(AssertionError)
  }

  /** The iteration for the given `scalar_type`; an unknown one makes `pytest.raises("…")` raise TypeError. */
  function ScalarStep(scalarType: string, telemetry: Json, ping: string, scalar: Json, value: Json): Step<bool> {
    if scalarType == "keyedScalars" then KeyedScalarStep(telemetry, ping, scalar, value)
    else if scalarType == "scalars" then PlainScalarStep(telemetry, ping, value)
    else Fail(TypeError)
  }

  /** `find_telemetry(ping, scalar, value, scalar_type)` over the snapshots taken before the 60-second deadline. */
  method FindTelemetry(snapshots: seq<Json>, ping: string, scalar: Json, value: Json, scalarType: string)
    returns (v: Verdict<bool>, sleeps: nat)
    ensures v == Settle(Steps(snapshots, (t: Json) => ScalarStep(scalarType, t, ping, scalar, value)))
    ensures sleeps == SleepsBeforeVerdict(Steps(snapshots, (t: Json) => ScalarStep(scalarType, t, ping, scalar, value)))
  {
    v, sleeps := Poll(snapshots, (t: Json) => ScalarStep(scalarType, t, ping, scalar, value));
  }

  /**
    A keyed-scalar snapshot is a hit exactly when the ping's dict has an
    entry whose key equals `scalar` and whose value equals `value`; a ping
    missing from a dict `parent` is retried.
   */
  lemma KeyedScalarHit(parent: seq<(string, Json)>, ping: string, scalar: Json, value: Json)
    requires HasKey(parent, ping)
    ensures var telemetry := Obj([("parent", Obj(parent))]);
      KeyedScalarStep(telemetry, ping, scalar, value) == Hit(true) <==>
        Lookup(parent, ping).Obj? &&
        exists i :: 0 <= i < |Lookup(parent, ping).fields| &&
          PyEq(scalar, Str(Lookup(parent, ping).fields[i].0)) && PyEq(value, Lookup(parent, ping).fields[i].1)
  {
    var telemetry := Obj([("parent", Obj(parent))]);
    assert HasKey(telemetry.fields, "parent") by { assert telemetry.fields[0].0 == "parent"; }
  }

  lemma MissingPingRetried(parent: seq<(string, Json)>, ping: string, scalar: Json, value: Json)
    requires !HasKey(parent, ping)
    ensures KeyedScalarStep(Obj([("parent", Obj(parent))]), ping, scalar, value) == Retry
  {
    var telemetry := Obj([("parent", Obj(parent))]);
    assert HasKey(telemetry.fields, "parent") by { assert telemetry.fields[0].0 == "parent"; }
  }

  /** With `scalars` the first snapshot decides: True when the value matches, an AssertionError otherwise, never a sleep. */
  lemma {:induction false} PlainScalarsDecideAtOnce(snapshots: seq<Json>, ping: string, scalar: Json, value: Json)
    requires |snapshots| > 0
    ensures var steps := Steps(snapshots, (t: Json) => ScalarStep("scalars", t, ping, scalar, value));
      Settle(steps) == (match PlainScalarStep(snapshots[0], ping, value)
                        case Hit(x) => Found(x)
                        case Fail(e) => Raised(e)
                        case _ => NotFound) &&
      SleepsBeforeVerdict(steps) == 0
  {
    var steps := Steps(snapshots, (t: Json) => ScalarStep("scalars", t, ping, scalar, value));
    assert steps[0] == PlainScalarStep(snapshots[0], ping, value);
    FirstDecisiveAt(steps, 0);
    assert steps[..0] == [];
  }

  // ---------------------------------------------------------------------
  // `fixture_firefox_version`
  // ---------------------------------------------------------------------

  /** `[w for w in words if "Firefox" in w][0]`: IndexError when no word qualifies. */
  function FirstFirefoxWord(words: seq<string>): (r: Outcome<string>)
    ensures r.Raise? <==> forall i :: 0 <= i < |words| ==> !IsSubstring("Firefox", words[i])
    ensures r.Raise? ==> r.error == IndexError
    ensures r.Ok? ==> exists k :: 0 <= k < |words| && words[k] == r.value && IsSubstring("Firefox", words[k]) &&
                                 forall j :: 0 <= j < k ==> !IsSubstring("Firefox", words[j])
    decreases |words|
  {
    if words == [] then Raise(IndexError)
    else if IsSubstring("Firefox", words[0]) then Ok(words[0])
    else
      var r := FirstFirefoxWord(words[1..]);
      assert forall i :: 0 < i < |words| ==> words[i] == words[1..][i - 1];
      if r.Ok? then
        var k :| 0 <= k < |words[1..]| && words[1..][k] == r.value && IsSubstring("Firefox", words[1..][k]) &&
                 forall j :: 0 <= j < k ==> !IsSubstring("Firefox", words[1..][j]);
        assert words[k + 1] == r.value;
        r
      else r
  }

  /** The version the fixture exports: the text after the last '/' of the first user-agent word naming Firefox. */
  function FirefoxVersion(userAgent: string): Outcome<string> {
    var token :- FirstFirefoxWord(Words(userAgent));
    Ok(Last(Split(token, '/')))
  }

  /**
    For a user agent made of space-separated words, the version is the
    sep-free tail of the first word naming Firefox: no '/' in it, a suffix
    of that word, preceded by '/' unless the word has none.
   */
  lemma FirefoxVersionOfAgent(pre: seq<string>, token: string, post: seq<string>)
    requires forall i :: 0 <= i < |pre| ==> pre[i] != [] && NoSpace(pre[i]) && !IsSubstring("Firefox", pre[i])
    requires forall i :: 0 <= i < |post| ==> post[i] != [] && NoSpace(post[i])
    requires NoSpace(token) && IsSubstring("Firefox", token)
    ensures var v := FirefoxVersion(Join(pre + [token] + post, ' '));
      v.Ok? && '/' !in v.value && |v.value| <= |token| && v.value == token[|token| - |v.value|..] &&
      (|v.value| < |token| ==> token[|token| - |v.value| - 1] == '/')
  {
    var ws := pre + [token] + post;
    AgentWords(pre, token, post);
    WordsJoin(ws);
    FirstFirefoxWordAt(ws, |pre|);
    SplitLast(token, '/');
  }

  lemma AgentWords(pre: seq<string>, token: string, post: seq<string>)
    requires forall i :: 0 <= i < |pre| ==> pre[i] != [] && NoSpace(pre[i]) && !IsSubstring("Firefox", pre[i])
    requires forall i :: 0 <= i < |post| ==> post[i] != [] && NoSpace(post[i])
    requires NoSpace(token) && IsSubstring("Firefox", token)
    ensures var ws := pre + [token] + post;
      (forall i :: 0 <= i < |ws| ==> ws[i] != [] && NoSpace(ws[i])) &&
      ws[|pre|] == token && forall j :: 0 <= j < |pre| ==> !IsSubstring("Firefox", ws[j])
  {
    var ws := pre + [token] + post;
    assert token != [] by {
      var i :| 0 <= i <= |token| - |"Firefox"| && IsPrefix("Firefox", token[i..]);
    }
    forall i | 0 <= i < |ws| ensures ws[i] != [] && NoSpace(ws[i]) {
      if i < |pre| { assert ws[i] == pre[i]; }
      else if i == |pre| { assert ws[i] == token; }
      else { assert ws[i] == post[i - |pre| - 1]; }
    }
  }

  lemma FirstFirefoxWordAt(ws: seq<string>, k: nat)
    requires k < |ws| && IsSubstring("Firefox", ws[k])
    requires forall j :: 0 <= j < k ==> !IsSubstring("Firefox", ws[j])
    ensures FirstFirefoxWord(ws) == Ok(ws[k])
  {
    var r := FirstFirefoxWord(ws);
    var m :| 0 <= m < |ws| && ws[m] == r.value && IsSubstring("Firefox", ws[m]) &&
             forall j :: 0 <= j < m ==> !IsSubstring("Firefox", ws[j]);
    assert m == k;
  }

  /** A user agent with no word naming Firefox makes the fixture raise IndexError. */
  lemma NoFirefoxWordRaises(userAgent: string)
    requires forall i :: 0 <= i < |Words(userAgent)| ==> !IsSubstring("Firefox", Words(userAgent)[i])
    ensures FirefoxVersion(userAgent) == Raise(IndexError)
  {
  }
}

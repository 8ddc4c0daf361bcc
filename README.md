# Klaatu: a Dafny model of the telemetry store, the experiment pollers and the version selection

Klaatu is Mozilla's test harness for Firefox experiments (desktop, Android and
iOS). This project models and proves properties of four parts of it:

- **The in-memory servers.**
  - The aiohttp telemetry server (`utilities/telemetry_server.py`) keeps every
    posted ping, lists them and forgets them.
  - The Flask experiment server (`server/server.py`) has the upload-extension
    filter, and a URL list that can be appended to, read and cleared.
- **The pollers that look for an experiment in telemetry.**
  - Desktop (`tests/conftest.py`): `check_ping_for_experiment`,
    `telemetry_event_check` and `find_telemetry`, plus the Firefox version taken
    from the user agent.
  - Android and iOS (`tests/android/conftest.py`, `tests/ios/conftest.py`):
    `check_ping_for_experiment` over `nimbus_events` enrollment and unenrollment
    records, the experiment-URL builder, and the marker-based skip rule.
- **The branch picker for Firefox-iOS** (`utilities/get_latest_firefox_ios_branch.py`):
  - `parse_version` on `release/vX.Y` names;
  - `find_latest_branch`;
  - the `int()` of the major in `main`.
- **The job starter** (`utilities/check_experimenter_and_start_jobs.py`):
  - `get_latest_versions`, which takes the newest release of every
    (major, minor) group;
  - `get_firefox_verions`, the version list per app and channel;
  - the selection of the experiments that are new since the last run.

## Modules

- **Text**: Python string operations on `seq<char>`:
  - `lower`, `in`, `split(sep)` and `split()`, `join`, `replace`, `startswith`;
  - decimal rendering of naturals.
- **PyJson**: JSON values and the Python operations the pollers apply to them:
  `in`, `[]`, `.get`, `.items()`, iteration, truthiness and `==`. Each operation
  either gives a value or raises a Python exception. The result type is
  `Outcome<T> = Ok(T) | Raise(PyError)`, and it chains with `:-`.
- **Polling**: the poll loop shared by all pollers. It walks a finite sequence
  of snapshots, one per poll, in place of the wall clock. The matching step
  (`Step`) is a pure function of one snapshot, with four cases:
  - `Hit`: return;
  - `Miss`: sleep, and trigger the loader where the source does;
  - `Retry`: `continue` without sleeping;
  - `Fail`: the exception escapes.

  `Poll` is proved equal to "the first decisive snapshot, else not found". It
  also returns the number of sleeps before the verdict.
- **TelemetryServer**, **ExperimentServer**: the two servers. The handler
  objects are classes whose methods update their fields.
- **DesktopConftest**, **NimbusConftest**: the pollers. Android and iOS share
  one module with a `Platform` parameter, because only the event extraction
  differs.
- **Versions**: `packaging.version.Version` for plain dotted release numbers.
  A version is a non-empty `seq<nat>` of release segments, compared with
  trailing zeros padded (so 1.0 == 1). The module also has `major`, `minor`,
  `micro`, parsing and `str`.
- **IosBranch**, **ExperimenterJobs**: the two utility scripts. Each one keeps
  the loops of the source, and each loop is proved against a specification
  function.

Some behaviours of the code are easy to misread; the model follows the
code:

- **Desktop `check_ping_for_experiment`.** A ping without `environment`
  raises KeyError. The loop restarts at once: it does not sleep and does not
  trigger the loader.
- **Desktop `telemetry_event_check`.** It reads the event snapshot once, then
  re-scans that same snapshot on every iteration.
- **Android/iOS checks and `find_telemetry`.** They sleep between polls and
  never trigger a re-evaluation.
- **POST on the telemetry server.** It appends one document per body chunk,
  not one per request. A chunk that is not JSON stops the POST, and the
  documents before it stay stored.
- **A poll with no match.** It returns Python `False`, not a record.

## Model

| member | source | states |
|---|---|---|
| `TelemetryServer.PingManager.constructor` | utilities/telemetry_server.py:15-17 | both fields start empty and `all_pings` is `{}` or `{"pings": current_ping_list}` |
| `TelemetryServer.PingManager.Pings` | utilities/telemetry_server.py:19-34 | POST appends the parsed chunks in order, leaving the older pings unchanged, and after a fully parsed POST `all_pings == {"pings": current_ping_list}`; GET returns exactly the list and changes nothing; DELETE empties both; only GET returns data |
| `TelemetryServer.PingManager.Submit` | utilities/telemetry_server.py:21-25 | the POST loop appends the parsed prefix of the body; it answers an empty response iff every chunk parses, and `all_pings` then holds the list |
| `TelemetryServer.ParsedPrefix` | utilities/telemetry_server.py:22-23 | the stored documents are those of the chunks before the first one that does not parse, each at its chunk's position |
| `TelemetryServer.ParsedPrefixAll` | utilities/telemetry_server.py:21-23 | when every chunk parses, a POST stores exactly one document per chunk |
| `TelemetryServer.PrefixStops` | utilities/telemetry_server.py:22-23 | a chunk that does not parse ends the POST with the earlier documents stored and an error answer |
| `TelemetryServer.ReplayAfterDelete` | utilities/telemetry_server.py:19-34 | after a run of requests whose last DELETE is at position `d`, the store is exactly the documents posted after it, in arrival order, duplicates kept: no lost writes, no invented pings |
| `TelemetryServer.ReplayWithoutDelete` | utilities/telemetry_server.py:19-34 | after a run of requests with no DELETE, the store is exactly every document posted, in arrival order |
| `TelemetryServer.GetRemovable` | utilities/telemetry_server.py:19-34 | a GET anywhere in a run of requests can be dropped without changing the final store, so no later answer depends on it |
| `ExperimentServer.LastExtension` | server/server.py:24 | `rsplit('.', 1)[1]`: the dot-free suffix after the last '.' |
| `ExperimentServer.AllowedFileMeans` | server/server.py:23-24 | `allowed_file(f)` iff `f` has a '.' and the lower-cased text after the last '.' is one of txt, pdf, png, jpg, jpeg, gif, json |
| `ExperimentServer.AllowedFileIgnoresCase` | server/server.py:24 | lower-casing the file name does not change the verdict |
| `ExperimentServer.UpperCaseExtensionAllowed` | server/server.py:24 | "X.JSON" is allowed |
| `ExperimentServer.DoubleExtensionRejected` | server/server.py:24 | only the last extension counts: "a.tar.gz" is refused |
| `ExperimentServer.EmptyOrMissingExtensionRejected` | server/server.py:24 | a name without a '.', or ending in '.', is refused |
| `ExperimentServer.UrlStore.constructor` | server/server.py:13 | the URL list starts empty |
| `ExperimentServer.UrlStore.Submit` | server/server.py:44-57 | POST appends `experiment_url` and answers 201, or answers 500 with the list unchanged when the body lacks it; GET answers 200 with the list unchanged; DELETE empties the list and answers 200 "URLS cleared" |
| `Polling.Poll` | tests/conftest.py:321-338 | the verdict is the first decisive snapshot's (found, or the exception), else not found; the sleep count is the number of `Miss` steps before it |
| `Polling.FirstDecisive` | tests/conftest.py:321-338 | the index of the first snapshot that decides, with no earlier one deciding |
| `Polling.FirstDecisiveAt` | tests/conftest.py:321-338 | any index that decides with no earlier decisive one is that first index |
| `Polling.RepeatedStep` | tests/conftest.py:356-364 | polling the same snapshot n times decides like one poll, or gives not found with n sleeps if it misses |
| `Polling.AllMisses` | tests/conftest.py:335-338 | when every poll misses, the result is not found after one sleep per poll |
| `DesktopConftest.CheckPingForExperiment` | tests/conftest.py:318-338 | returns `item[experiment]` of the first poll that has it, retries a poll that raises KeyError without a loader trigger, and triggers the loader once per missed poll |
| `DesktopConftest.ExperimentsDataShaped` | tests/conftest.py:324-330 | on well-shaped pings the comprehension raises exactly when some ping lacks `environment`, and the exception is KeyError |
| `DesktopConftest.MissingEnvironmentRetries` | tests/conftest.py:323-330 | a poll is retried without sleeping iff some ping lacks `environment` |
| `DesktopConftest.PingWithoutExperimentsSkipped` | tests/conftest.py:324-328 | a ping whose environment has no `experiments` contributes nothing |
| `DesktopConftest.FindExperimentFirst` | tests/conftest.py:332-334 | the item returned is that of the first experiments map holding the slug, and none is found iff no map holds it |
| `DesktopConftest.EmptyStoreNeverMatches` | tests/conftest.py:318-338 | with no pings stored, every poll misses and the result is `False` after n loader triggers |
| `DesktopConftest.TelemetryEventCheck` | tests/conftest.py:345-364 | the one snapshot's step decides: found, the exception, or `False` after one loader trigger per iteration |
| `DesktopConftest.AnyInRecords` | tests/conftest.py:357-359 | `(experiment and event) in item` over event records is membership in some record |
| `DesktopConftest.ExperimentNameIgnored` | tests/conftest.py:358 | for any truthy experiment, only `event` is searched for, so the experiment name does not matter |
| `DesktopConftest.KeyedMatch` | tests/conftest.py:417-420 | found iff some entry of the keyed scalar equals `(scalar, value)` |
| `DesktopConftest.FindTelemetry` | tests/conftest.py:404-437 | the `find_telemetry` loop is the first decisive poll of its scalar step, sleeping one turn per miss |
| `DesktopConftest.KeyedScalarHit` | tests/conftest.py:416-420 | a present ping is found iff one of its entries matches |
| `DesktopConftest.MissingPingRetried` | tests/conftest.py:417-422 | a ping missing from `parent` makes `.get(ping)` return None, and `None.items()` raises AttributeError, which is caught, so the poll is retried |
| `DesktopConftest.PlainScalarsDecideAtOnce` | tests/conftest.py:423-431 | with `scalar_type="scalars"` the first poll decides: found, or AssertionError |
| `DesktopConftest.FirstFirefoxWord` | tests/conftest.py:523 | the first whitespace-separated word containing "Firefox"; IndexError iff there is none |
| `DesktopConftest.FirefoxVersionOfAgent` | tests/conftest.py:523-525 | for a user agent whose first "Firefox" word is `token`, the version is the text after the last '/' of `token` |
| `DesktopConftest.NoFirefoxWordRaises` | tests/conftest.py:523 | a user agent without a "Firefox" word raises IndexError |
| `NimbusConftest.CheckPingForExperiment` | tests/android/conftest.py:228-258 | the Android and iOS loop is the first poll whose events match, with a sleep per missed poll; an exception while matching escapes |
| `NimbusConftest.NameMatchesReasonNames` | tests/android/conftest.py:248-250 | "enrollment" accepts the name enrollment and "unenrollment" accepts unenrollment or disqualification; nothing else is accepted |
| `NimbusConftest.CandidateIsDict` | tests/android/conftest.py:239-244 | only a dict passes the nimbus-event test |
| `NimbusConftest.CandidateMeans` | tests/android/conftest.py:239-245 | an event is kept iff it has `category` containing "nimbus_events" and an `extra` with `branch` |
| `NimbusConftest.AndroidFalsyEventsContributeNothing` | tests/android/conftest.py:236-237 | on Android a ping whose `events` is missing or falsy adds no event |
| `NimbusConftest.IosEvents` | tests/ios/conftest.py:238 | on iOS a missing `events` adds nothing, while an explicit null raises TypeError |
| `NimbusConftest.FilterKeepsCandidates` | tests/android/conftest.py:238-245 | for one ping's events, the filter keeps exactly the candidates (as members) |
| `NimbusConftest.CandidatesMeans` | tests/android/conftest.py:236-245 | when every ping's `events` can be read and tested, the collected events are exactly the candidates among the events of the pings (as members) |
| `NimbusConftest.MatchEventsMeans` | tests/android/conftest.py:246-256 | on complete events the check succeeds iff some event has an accepted name and equal branch and experiment |
| `NimbusConftest.OtherReasonNeverMatches` | tests/android/conftest.py:248-250 | a reason other than enrollment and unenrollment never matches |
| `NimbusConftest.MissingExperimentRaises` | tests/android/conftest.py:251-254 | an accepted event whose `extra` lacks `experiment` raises KeyError |
| `NimbusConftest.ExperimentUrl` | tests/android/conftest.py:157-167 | a non-empty slug gives `<server>/api/v6/experiments/<slug>/` for prod or stage(/preview) and no URL for other servers; otherwise the Klaatu-server branch is taken |
| `NimbusConftest.ExperimentUrlInjective` | tests/ios/conftest.py:174-180 | different slugs give different URLs |
| `NimbusConftest.SkipRule` | tests/android/conftest.py:57-61 | a test is skipped iff it has markers and the feature is not among them (the iOS rule at tests/ios/conftest.py:53-57 is the same) |
| `Versions.Cmp` | utilities/check_experimenter_and_start_jobs.py:55 | the version order gives -1, 0 or 1 |
| `Versions.CmpAntisymmetric` | utilities/get_latest_firefox_ios_branch.py:99 | swapping the arguments negates the comparison |
| `Versions.CmpTransitive` | utilities/get_latest_firefox_ios_branch.py:99 | the order is transitive, strictly if either step is strict |
| `Versions.CmpReflexive` | utilities/get_latest_firefox_ios_branch.py:99 | every version equals itself |
| `Versions.CmpZeroSameTriple` | utilities/check_experimenter_and_start_jobs.py:60-61 | equal versions have the same major, minor and micro |
| `Versions.TrailingZeroIgnored` | utilities/check_experimenter_and_start_jobs.py:55 | 128 == 128.0 and 128.0.1 < 128.1 |
| `Versions.ParseFormat` | utilities/check_experimenter_and_start_jobs.py:71 | parsing `str(v)` gives `v` back |
| `Versions.FormatInjective` | utilities/check_experimenter_and_start_jobs.py:71 | different versions render differently |
| `Text.SplitJoin` | utilities/get_latest_firefox_ios_branch.py:116 | splitting the join of pieces without the separator gives the pieces back |
| `Text.SplitLast` | tests/conftest.py:525 | the last piece of `split(sep)` is a suffix, preceded by `sep` when shorter than the string |
| `Text.WordsJoin` | tests/conftest.py:523 | `split()` of words joined by spaces gives the words back |
| `IosBranch.BranchRoundTrip` | utilities/get_latest_firefox_ios_branch.py:21-35 | `parse_version("release/v" + str(v)) == v` |
| `IosBranch.NonReleaseIgnored` | utilities/get_latest_firefox_ios_branch.py:24-25 | every name not starting with "release/v" parses to None; "main" and a name that only ends in a release branch are instances |
| `IosBranch.FindLatestBranch` | utilities/get_latest_firefox_ios_branch.py:83-101 | raises ValueError iff no branch has the major; otherwise returns a branch with that major whose version is at least that of every match and greater than every earlier match |
| `IosBranch.MatchingBranches` | utilities/get_latest_firefox_ios_branch.py:87-94 | `matching_branches` is exactly the branches with the major, in input order, with their versions; it is empty iff no branch has the major |
| `IosBranch.FirstGreatest` | utilities/get_latest_firefox_ios_branch.py:99-100 | the stable reverse sort's first entry: a greatest version, earlier than any other greatest one |
| `IosBranch.StripStart` | utilities/get_latest_firefox_ios_branch.py:118 | `int()` drops leading whitespace and nothing else: the result is a suffix that starts with no space, and every character dropped is one `int()` strips (space or \t-\r) |
| `IosBranch.StripEnd` | utilities/get_latest_firefox_ios_branch.py:118 | `int()` drops trailing whitespace and nothing else: the result is a prefix that ends with no space, and every character dropped is one `int()` strips (space or \t-\r) |
| `IosBranch.StripStartAt` | utilities/get_latest_firefox_ios_branch.py:118 | the leading strip cuts exactly at the first non-space character |
| `IosBranch.StripEndAt` | utilities/get_latest_firefox_ios_branch.py:118 | the trailing strip cuts exactly after the last non-space character |
| `IosBranch.MajorArgumentOfVersion` | utilities/get_latest_firefox_ios_branch.py:116-118 | for an argument `str(v)`, the major read is `v`'s major |
| `IosBranch.IntOfDigits` | utilities/get_latest_firefox_ios_branch.py:118 | a non-empty run of digits is read as its decimal value |
| `IosBranch.IntOfNatToString` | utilities/get_latest_firefox_ios_branch.py:118 | `int(str(n)) == n` for every natural `n` |
| `IosBranch.IntOfPadded` | utilities/get_latest_firefox_ios_branch.py:118 | one space on each side is ignored: `int(" " + str(n) + " ") == n`, as in `int(" 128 ") == 128` |
| `IosBranch.IntOfSigned` | utilities/get_latest_firefox_ios_branch.py:118 | a leading minus negates: `int("-" + str(n)) == -n` |
| `IosBranch.IntOfUnderscore` | utilities/get_latest_firefox_ios_branch.py:118 | an underscore between two digit runs is dropped: `int(x + "_" + y)` is the value of `x + y`, as in `int("1_2") == 12` |
| `IosBranch.IntOfRejects` | utilities/get_latest_firefox_ios_branch.py:118 | "v" followed by digits is not an integer |
| `IosBranch.IntOfEmpty` | utilities/get_latest_firefox_ios_branch.py:118 | "" is not an integer |
| `IosBranch.IntOfRejectsSeparator` | utilities/get_latest_firefox_ios_branch.py:118-121 | a separator character \x1c-\x1f before or after a digit run is not stripped, so the argument is not an integer and the script exits with 1 |
| `IosBranch.IntOfSeparatorExample` | utilities/get_latest_firefox_ios_branch.py:118 | `int("\x1c5")` raises ValueError |
| `IosBranch.Run` | utilities/get_latest_firefox_ios_branch.py:116-134 | a non-integer major exits with status 1; otherwise the latest branch is printed, or the script exits with 1 when there is none |
| `ExperimenterJobs.FilterVersions` | utilities/check_experimenter_and_start_jobs.py:50-56 | the first loop gives exactly the `Considered` versions, or raises what they raise |
| `ExperimenterJobs.ConsideredRaise` | utilities/check_experimenter_and_start_jobs.py:54-56 | the first key whose `Version(...)` or minimum raises decides the exception |
| `ExperimenterJobs.ConsideredMeans` | utilities/check_experimenter_and_start_jobs.py:54-56 | only versions at least `Version(min_version[0])` are kept, and every key at or above it is kept |
| `ExperimenterJobs.GroupKeyMeans` | utilities/check_experimenter_and_start_jobs.py:61 | two versions have the same `"major.minor"` key iff they have the same major and minor |
| `ExperimenterJobs.SameVersionSameGroup` | utilities/check_experimenter_and_start_jobs.py:60-61 | equal versions fall into the same group |
| `ExperimenterJobs.GroupOf` | utilities/check_experimenter_and_start_jobs.py:58-62 | a group holds exactly the considered versions with its key |
| `ExperimenterJobs.GroupVersions` | utilities/check_experimenter_and_start_jobs.py:58-62 | `version_groups` has one distinct key per group met, each mapped to its non-empty group, and every considered version's key is present |
| `ExperimenterJobs.FirstMax` | utilities/check_experimenter_and_start_jobs.py:68 | `max` by (major, minor, micro): a member that no other exceeds, ahead of which every version is smaller |
| `ExperimenterJobs.LatestOfGroups` | utilities/check_experimenter_and_start_jobs.py:66-68 | `latest_versions` holds the `max` of every group, one per key |
| `ExperimenterJobs.Insert` | utilities/check_experimenter_and_start_jobs.py:71 | inserting a new version into a strictly ascending list keeps it strictly ascending and adds exactly that version |
| `ExperimenterJobs.SortVersions` | utilities/check_experimenter_and_start_jobs.py:71 | `sorted` of distinct versions: the same members, the same length, strictly ascending |
| `ExperimenterJobs.Render` | utilities/check_experimenter_and_start_jobs.py:71 | one `str(version)` per output version, in order, and each string parses back to its version |
| `ExperimenterJobs.GetLatestVersions` | utilities/check_experimenter_and_start_jobs.py:47-71 | raises what the first loop raises; otherwise returns the rendering of a list holding each group's `max`, covering every considered group, strictly ascending |
| `ExperimenterJobs.OnePerGroup` | utilities/check_experimenter_and_start_jobs.py:58-68 | no two output versions share a (major, minor) group |
| `ExperimenterJobs.GreatestInGroup` | utilities/check_experimenter_and_start_jobs.py:68 | each output version is a considered one that nothing in its group exceeds by (major, minor, micro) |
| `ExperimenterJobs.AscendingSameMembers` | utilities/check_experimenter_and_start_jobs.py:71 | two strictly ascending lists with the same members are equal |
| `ExperimenterJobs.LatestPerGroupUnique` | utilities/check_experimenter_and_start_jobs.py:47-71 | at most one list meets that promise, so the result is determined by the input |
| `ExperimenterJobs.IosRaise` | utilities/check_experimenter_and_start_jobs.py:80-82 | a key that raises during the reversed walk decides the exception |
| `ExperimenterJobs.IosMajorsOk` | utilities/check_experimenter_and_start_jobs.py:80-84 | the iOS loop raises iff some key is not a version, or `min_version` is not one while keys remain |
| `ExperimenterJobs.IosMajorsMeans` | utilities/check_experimenter_and_start_jobs.py:80-84 | the collected set is exactly the majors of the keys above `min_version`'s major |
| `ExperimenterJobs.IosSelectionMeans` | utilities/check_experimenter_and_start_jobs.py:78-87 | for firefox_ios the result is those majors as strings when some exist, else `[str(Version(min_version))]` |
| `ExperimenterJobs.GetFirefoxVersions` | utilities/check_experimenter_and_start_jobs.py:73-100 | empty releases give IndexError and a bad newest key InvalidVersion; then firefox_ios follows the iOS loop; release gives `get_latest_versions` plus "latest", "latest-beta" iff the app is desktop; nightly gives the string "['latest']"; beta gives "['latest-beta']" for desktop, else `[f"{newest major + 1}.0b"]`; other channels give None |
| `ExperimenterJobs.PublishedOnly` | utilities/check_experimenter_and_start_jobs.py:122 | keeps exactly the experiments with a `publishedDate` |
| `ExperimenterJobs.InsertByDate` | utilities/check_experimenter_and_start_jobs.py:123 | inserting into a date-ordered list keeps it ordered and adds exactly the one experiment |
| `ExperimenterJobs.SortByDate` | utilities/check_experimenter_and_start_jobs.py:123 | `sorted` by date: ordered by date and a permutation of its input |
| `ExperimenterJobs.RunStart` | utilities/check_experimenter_and_start_jobs.py:127-131 | where the walk stops: no later experiment has the previous slug, and the one just before has it |
| `ExperimenterJobs.DictSet` | utilities/check_experimenter_and_start_jobs.py:129 | `d[key] = value`: keys stay distinct, the key set gains `key`, the key's entry holds `value`, other entries stay, and the first key stays first |
| `ExperimenterJobs.InsertedMeans` | utilities/check_experimenter_and_start_jobs.py:127-131 | the walked dict has one entry per slug met, each holding the oldest experiment with that slug in the range walked, with the newest slug first |
| `ExperimenterJobs.WalkBack` | utilities/check_experimenter_and_start_jobs.py:127-131 | the loop with its `break` builds the dict of the run after the previous slug |
| `ExperimenterJobs.SelectNewExperiments` | utilities/check_experimenter_and_start_jobs.py:122-131 | `testing_list` is that dict over the published experiments sorted by date |
| `ExperimenterJobs.WalkMeans` | utilities/check_experimenter_and_start_jobs.py:127-131 | the selection has distinct slugs, none equal to the previous one; it has every slug after the previous one's position, each mapped to its oldest experiment there, newest slug first; the walk stopped at the previous slug or at the start |
| `ExperimenterJobs.SelectionPublished` | utilities/check_experimenter_and_start_jobs.py:122-131 | everything selected is a published experiment of the API's list |
| `ExperimenterJobs.NoPreviousSelectsAll` | utilities/check_experimenter_and_start_jobs.py:103-131 | without a previous file (`previous_experiment = []`) every published experiment's slug is selected |

## Left out

- **Transport and I/O are not modelled.** This covers HTTP (`requests` and the
  aiohttp and Flask set-up), chunk streaming, file reads and writes, and
  subprocesses. A request body is a given sequence of chunks. The API
  responses, the ping list and the release list are parameters.
- **`json.loads` of a chunk is an abstract parser**, a parameter that may fail.
- **A Flask body that is not JSON is not modelled.** The request data is a
  JSON value.
- **Wall-clock deadlines and `time.sleep` are replaced by a finite sequence of
  snapshots.** The model counts sleeps and loader triggers instead of timing
  them. The loader itself (`trigger_experiment_loader`) is an opaque side
  effect.
- **Concurrency is left out.** The model handles requests one after another.
  In aiohttp the handler is a coroutine, and concurrent requests interleave at
  each awaited chunk of a POST body. Two POSTs can then interleave their
  documents, and a DELETE that arrives during a POST keeps only that POST's
  later chunks, because each append looks up `current_ping_list` again.
  `TelemetryServer.ReplayAfterDelete`, `TelemetryServer.ReplayWithoutDelete`
  and `TelemetryServer.GetRemovable` hold only for requests handled in
  sequence.
- **`TelemetryModel` is not part of this model.** Its `==` is taken to compare
  `branch` and `experiment` field by field, with Python `==`.
- **`pytest.raises("Incorrect Scalar type")` is modelled by its result only.**
  Called with a string, it raises TypeError, and that is what the model
  records.
- **`pytest.skip` is modelled only as the decision to skip.**
- **The Klaatu-server branch of `fixture_experiment_url` is not modelled.** It
  fetches the URL over HTTP, so the model records only that the branch is
  taken.
- **Versions are plain dotted digit runs.** PEP 440 pre-, post- and dev-releases,
  epochs, local parts and `v` prefixes are not versions here, and give
  InvalidVersion. So does surrounding whitespace, although packaging allows it:
  `Version(" 120.0 ")` is valid in Python, while `ParseVersion` refuses it.
- **`packaging.version.parse` and `Version` are treated alike.** The considered
  list keeps parsed versions, not strings. Both hold the same information,
  because they are re-parsed at line 60.
- **Dates are abstract.** `dateutil.isoparse` of `publishedDate` is an abstract
  integer timestamp.
- **`ExperimenterJobs.SortByDate` is proved sorted and a permutation, but not
  stable.** The insertion it uses keeps equal dates in input order, like
  Python's `sorted`.
- **The `run_flag`/`exit` lines (113-119) are left out.** They change nothing,
  because `run_flag` is already `True` and `exit` is not called. The
  `current_experiments[-1]` there raises IndexError on an empty list, and that
  case is not modelled.
- **The per-app dispatch and `trigger_github_action` are not modelled.** This
  covers the `versionCompare` regex, the GitHub calls and the 30-second pause
  (lines 133-165).
- **`ExperimenterJobs.GetFirefoxVersions` gives the iOS result as a set.** The
  source builds that list by iterating a Python set, whose order is not
  defined, so the model keeps only its members (`Unordered`).
- **JSON numbers are integers only.** `PyJson.Json` has no floats, but
  `json.loads` and `.json()` can produce them, and Python's `==` and `in`
  compare them numerically with integers (`1.0 == 1`). That comparison is not
  modelled.
- **Every Experimenter API record is assumed to have a `slug` and a
  `publishedDate`.** `ExperimenterJobs.Experiment` always carries both. A
  record without them raises KeyError at lines 122, 128 and 129 of the script,
  and the model has no such path.
- **Desktop `check_ping_for_experiment` always gets an experiment slug.**
  `DesktopConftest.CheckPingForExperiment` takes a string, so it leaves out
  the `experiment=None` default. With that default, `None in item` is
  False on every poll.
- **Text handling is ASCII only.** Lower-casing and digits follow Python for
  ASCII. Whitespace follows it too, with two different sets. `str.split()`
  treats space, \t-\r and the separators \x1c-\x1f as whitespace
  (`Text.IsSpace`). `int()` strips only space and \t-\r (`IosBranch.IntSpace`).
  Unicode case mappings, Unicode whitespace and non-ASCII digits are not
  modelled.
- **GitHub pagination is not modelled.** `get_firefox_ios_branches` fetches the
  branch names over HTTP, so they are a parameter.

/**
  The Klaatu Flask server: the upload filter on file names and the
  `/experiment` endpoint that keeps a process-wide list of experiment URLs.
 */
module ExperimentServer {
  import opened Text
  import opened PyJson

  const AllowedExtensions: set<string> := {"txt", "pdf", "png", "jpg", "jpeg", "gif", "json"}

  /** `filename.rsplit('.', 1)[1]`: the text after the last dot, for a name that has one. */
  function LastExtension(filename: string): (ext: string)
    requires '.' in filename
    ensures '.' !in ext
    ensures |ext| < |filename| && filename[|filename| - |ext| - 1] == '.'
    ensures ext == filename[|filename| - |ext|..]
  {
    var k := LastIndexOf(filename, '.').value;
    filename[k + 1..]
  }

  /** `allowed_file`: the name has a dot and its last extension, lower-cased, is on the list. */
  predicate AllowedFile(filename: string) {
    '.' in filename && Lower(LastExtension(filename)) in AllowedExtensions
  }

  /** A dot followed by no other dot is the last one. */
  lemma LastExtensionAt(filename: string, k: nat)
    requires k < |filename| && filename[k] == '.' && '.' !in filename[k + 1..]
    ensures LastExtension(filename) == filename[k + 1..]
  {
  }

  /** The filter in plain terms: some dot is followed by no other dot and by an allowed extension. */
  lemma AllowedFileMeans(filename: string)
    ensures AllowedFile(filename) <==>
      exists k | 0 <= k < |filename| ::
        filename[k] == '.' && '.' !in filename[k + 1..] && Lower(filename[k + 1..]) in AllowedExtensions
  {
    if AllowedFile(filename) {
      var ext := LastExtension(filename);
      var k := |filename| - |ext| - 1;
      assert filename[k + 1..] == ext;
    }
    if exists k | 0 <= k < |filename| ::
         filename[k] == '.' && '.' !in filename[k + 1..] && Lower(filename[k + 1..]) in AllowedExtensions {
      var k :| 0 <= k < |filename| &&
               filename[k] == '.' && '.' !in filename[k + 1..] && Lower(filename[k + 1..]) in AllowedExtensions;
      LastExtensionAt(filename, k);
    }
  }

  /** Lower-casing neither adds nor removes dots. */
  lemma LowerKeepsDots(s: string)
    ensures ('.' in Lower(s)) == ('.' in s)
  {
    if '.' in s {
      var i :| 0 <= i < |s| && s[i] == '.';
      assert Lower(s)[i] == '.';
    }
    if '.' in Lower(s) {
      var i :| 0 <= i < |s| && Lower(s)[i] == '.';
      assert s[i] == '.';
    }
  }

  /** Lower-casing commutes with taking a suffix. */
  lemma LowerSuffix(s: string, k: nat)
    requires k <= |s|
    ensures Lower(s)[k..] == Lower(s[k..])
  {
  }

  /** The check does not depend on letter case: lower-casing the whole name first changes nothing. */
  lemma AllowedFileIgnoresCase(filename: string)
    ensures AllowedFile(Lower(filename)) == AllowedFile(filename)
  {
    var low := Lower(filename);
    LowerKeepsDots(filename);
    if '.' in filename {
      var e := LastExtension(filename);
      var k := |filename| - |e| - 1;
      assert low[k] == '.';
      LowerSuffix(filename, k + 1);
      assert filename[k + 1..] == e;
      LowerKeepsDots(e);
      LastExtensionAt(low, k);
      LowerIdempotent(e);
    }
  }

  lemma LowerIdempotent(s: string)
    ensures Lower(Lower(s)) == Lower(s)
  {
  }

  /** An upper-case extension such as `X.JSON` is accepted. */
  lemma UpperCaseExtensionAllowed()
    ensures AllowedFile("X.JSON")
  {
    assert LastIndexOf("X.JSON", '.') == Some(1);
    assert Lower("JSON") == "json";
  }

  /** Only the last extension counts. */
  lemma DoubleExtensionRejected()
    ensures !AllowedFile("a.tar.gz")
  {
    assert LastIndexOf("a.tar.gz", '.') == Some(5);
    assert Lower("gz") == "gz";
  }

  /** A name ending in a dot, or without one, is rejected. */
  lemma EmptyOrMissingExtensionRejected(stem: string)
    requires '.' !in stem
    ensures !AllowedFile(stem)
    ensures !AllowedFile(stem + ".")
  {
    assert LastIndexOf(stem + ".", '.') == Some(|stem|);
    assert LastExtension(stem + ".") == "";
  }

  /** A Flask response: an HTTP status and a JSON body. */
  datatype Response = Response(status: int, body: Json)

  datatype HttpMethod = Post | Get | Delete

  /** The module-level `URLS` list served by `/experiment`. */
  class UrlStore {
    var urls: seq<Json>

    constructor ()
      ensures urls == []
    {
      urls := [];
    }

    /**
      `submit`. A POST appends `request_data["experiment_url"]` (201); a body
      that is not a dict holding that key makes the subscript raise, which
      Flask turns into a 500 with `URLS` untouched. GET lists (200) and DELETE
      clears (200). `requestData` is what `request.get_json()` returned.
     */
    method Submit(verb: HttpMethod, requestData: Json) returns (response: Response)
      modifies this
      ensures verb == Post ==>
        match Subscript(requestData, "experiment_url")
        case Ok(url) => urls == old(urls) + [url] && response == Response(201, Str(""))
        case Raise(_) => urls == old(urls) && response.status == 500
      ensures verb == Get ==> urls == old(urls) && response == Response(200, Arr(urls))
      ensures verb == Delete ==> urls == [] && response == Response(200, Str("URLS cleared"))
    {
      match verb {
        case Post =>
          match Subscript(requestData, "experiment_url") {
            case Ok(url) =>
              urls := urls + [url];
              response := Response(201, Str(""));
            case Raise(_) =>
              response := Response(500, Str("Internal Server Error"));
          }
        case Get =>
          response := Response(200, Arr(urls));
        case Delete =>
          urls := [];
          response := Response(200, Str("URLS cleared"));
      }
    }
  }
}

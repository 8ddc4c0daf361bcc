/**
  The telemetry ping server: an aiohttp handler object that keeps every
  ping POSTed to `/submit/...` in memory, lists them on `GET /pings` and
  forgets them on `DELETE /pings`.
 */
module TelemetryServer {
  import opened Text
  import opened PyJson

  newtype Byte = x: int | 0 <= x < 256

  /** One piece of a request body, as `request.content.iter_any()` hands it over. */
  type Chunk = seq<Byte>

  /** `json.loads` of one chunk, left abstract: None where it raises. */
  type Parser = Chunk -> Option<Json>

  /** The three routes end in the same handler; the path of a POST is ignored. */
  datatype HttpMethod = Post | Get | Delete

  /** An empty `web.Response()`, the ping list as JSON, or a server error for a chunk that is not JSON. */
  datatype Response = Empty | PingList(pings: seq<Json>) | ServerError

  datatype Request = Request(verb: HttpMethod, body: seq<Chunk>)

  /** The documents of the chunks before the first one that fails to parse. */
  function ParsedPrefix(body: seq<Chunk>, parse: Parser): (r: seq<Json>)
    ensures |r| <= |body|
    ensures forall i :: 0 <= i < |r| ==> parse(body[i]) == Some(r[i])
    ensures |r| < |body| ==> parse(body[|r|]).None?
  {
    if body == [] then []
    else match parse(body[0])
      case None => []
      case Some(doc) => [doc] + ParsedPrefix(body[1..], parse)
  }

  predicate AllParse(body: seq<Chunk>, parse: Parser) {
    forall i :: 0 <= i < |body| ==> parse(body[i]).Some?
  }

  /** The stored list after one request. */
  function Effect(store: seq<Json>, request: Request, parse: Parser): seq<Json> {
    match request.verb
    case Post => store + ParsedPrefix(request.body, parse)
    case Get => store
    case Delete => []
  }

  /** The response to one request. */
  function Reply(store: seq<Json>, request: Request, parse: Parser): Response {
    match request.verb
    case Post => if AllParse(request.body, parse) then Empty else ServerError
    case Get => PingList(store)
    case Delete => Empty
  }

  class PingManager {
    var allPings: map<string, seq<Json>>
    var currentPingList: seq<Json>

    /**
      `all_pings` is either empty or `{"pings": current_ping_list}`: after a
      POST the dict holds the list object itself, so later appends show in both.
     */
    ghost predicate Valid()
      reads this
    {
      allPings == map[] || allPings == map["pings" := currentPingList]
    }

    constructor ()
      ensures Valid()
      ensures allPings == map[] && currentPingList == []
    {
      allPings := map[];
      currentPingList := [];
    }

    /**
      The request handler. A POST appends the document of each chunk in
      turn; the first chunk `json.loads` rejects raises out of the handler
      (aiohttp answers 500) and leaves the documents before it stored.
     */
    method Pings(request: Request, parse: Parser) returns (response: Response)
      requires Valid()
      modifies this
      ensures Valid()
      ensures currentPingList == Effect(old(currentPingList), request, parse)
      ensures response == Reply(old(currentPingList), request, parse)
      ensures request.verb == Post && AllParse(request.body, parse) ==>
                allPings == map["pings" := currentPingList]
      ensures request.verb == Post && !AllParse(request.body, parse) ==>
                (allPings == map[]) == (old(allPings) == map[])
      ensures request.verb == Get ==> allPings == old(allPings)
      ensures request.verb == Delete ==> allPings == map[]
    {
      match request.verb {
        case Post =>
          response := Submit(request.body, parse);
        case Get =>
          response := PingList(currentPingList);
        case Delete =>
          allPings := map[];
          currentPingList := [];
          response := Empty;
      }
    }

    /** The POST branch of the handler: the loop over the body's chunks. */
    method Submit(body: seq<Chunk>, parse: Parser) returns (response: Response)
      requires Valid()
      modifies this
      ensures Valid()
      ensures currentPingList == old(currentPingList) + ParsedPrefix(body, parse)
      ensures response == (if AllParse(body, parse) then Empty else ServerError)
      ensures AllParse(body, parse) ==> allPings == map["pings" := currentPingList]
      ensures !AllParse(body, parse) ==> (allPings == map[]) == (old(allPings) == map[])
    {
      var i := 0;
      while i < |body|
        invariant 0 <= i <= |body|
        invariant forall j :: 0 <= j < i ==> parse(body[j]).Some?
        invariant currentPingList == old(currentPingList) + ParsedPrefix(body[..i], parse)
        invariant Valid()
        invariant (allPings == map[]) == (old(allPings) == map[])
      {
        var doc := parse(body[i]);
        if doc.None? {
          PrefixStops(body, i, parse);
          return ServerError;
        }
        PrefixExtends(body, i, parse);
        currentPingList := currentPingList + [doc.value];
        if allPings != map[] {
          allPings := map["pings" := currentPingList];
        }
        i := i + 1;
      }
      assert body[..i] == body;
      allPings := map["pings" := currentPingList];
      response := Empty;
    }
  }

  lemma {:induction false} PrefixExtends(body: seq<Chunk>, i: nat, parse: Parser)
    requires i < |body| && parse(body[i]).Some?
    requires forall j :: 0 <= j < i ==> parse(body[j]).Some?
    ensures ParsedPrefix(body[..i + 1], parse) == ParsedPrefix(body[..i], parse) + [parse(body[i]).value]
  {
    if i > 0 {
      PrefixExtends(body[1..], i - 1, parse);
      assert body[1..][..i] == body[..i + 1][1..];
      assert body[1..][..i - 1] == body[..i][1..];
    }
  }

  lemma {:induction false} PrefixStops(body: seq<Chunk>, i: nat, parse: Parser)
    requires i < |body| && parse(body[i]).None?
    requires forall j :: 0 <= j < i ==> parse(body[j]).Some?
    ensures ParsedPrefix(body, parse) == ParsedPrefix(body[..i], parse)
    ensures !AllParse(body, parse)
  {
    if i > 0 {
      PrefixStops(body[1..], i - 1, parse);
      assert body[1..][..i - 1] == body[..i][1..];
    }
  }

  /** When every chunk parses, a POST stores one document per chunk, in order. */
  lemma {:induction false} ParsedPrefixAll(body: seq<Chunk>, parse: Parser)
    requires AllParse(body, parse)
    ensures |ParsedPrefix(body, parse)| == |body|
  {
    if body != [] {
      ParsedPrefixAll(body[1..], parse);
    }
  }

  /** The store after a run of requests, starting from the empty store. */
  function Replay(requests: seq<Request>, parse: Parser): seq<Json> {
    if requests == [] then []
    else Effect(Replay(requests[..|requests| - 1], parse), requests[|requests| - 1], parse)
  }

  /** Every document stored by the POSTs of `requests`, in arrival order. */
  function Submitted(requests: seq<Request>, parse: Parser): seq<Json> {
    if requests == [] then []
    else
      var r := requests[|requests| - 1];
      Submitted(requests[..|requests| - 1], parse) + (if r.verb == Post then ParsedPrefix(r.body, parse) else [])
  }

  /** Without a DELETE, the store is every document posted, in arrival order. */
  lemma {:induction false} ReplayWithoutDelete(requests: seq<Request>, parse: Parser)
    requires forall j :: 0 <= j < |requests| ==> requests[j].verb != Delete
    ensures Replay(requests, parse) == Submitted(requests, parse)
  {
    if requests != [] {
      var init := requests[..|requests| - 1];
      assert forall j :: 0 <= j < |init| ==> init[j].verb != Delete;
      ReplayWithoutDelete(init, parse);
    }
  }

  /**
    No lost writes and no invented pings: after the last DELETE, the store
    is every document posted since, in arrival order, duplicates included.
   */
  lemma {:induction false} ReplayAfterDelete(requests: seq<Request>, parse: Parser, d: nat)
    requires d < |requests| && requests[d].verb == Delete
    requires forall j :: d < j < |requests| ==> requests[j].verb != Delete
    ensures Replay(requests, parse) == Submitted(requests[d + 1..], parse)
  {
    var n := |requests| - 1;
    if d == n {
      assert requests[d + 1..] == [];
    } else {
      var init := requests[..n];
      assert init[d].verb == Delete;
      assert forall j :: d < j < |init| ==> init[j].verb != Delete;
      ReplayAfterDelete(init, parse, d);
      var since := requests[d + 1..];
      assert since[..|since| - 1] == init[d + 1..];
      assert since[|since| - 1] == requests[n];
    }
  }

  /**
    A GET anywhere in a run of requests can be dropped without changing the
    final store, so it changes nothing that any later request answers.
   */
  lemma {:induction false} GetRemovable(requests: seq<Request>, parse: Parser, g: nat)
    requires g < |requests| && requests[g].verb == Get
    ensures Replay(requests, parse) == Replay(requests[..g] + requests[g + 1..], parse)
  {
    var n := |requests| - 1;
    var init := requests[..n];
    var without := requests[..g] + requests[g + 1..];
    if g == n {
      assert without == init;
    } else {
      assert init[g].verb == Get;
      GetRemovable(init, parse, g);
      assert without[..|without| - 1] == init[..g] + init[g + 1..];
      assert without[|without| - 1] == requests[n];
    }
  }
}

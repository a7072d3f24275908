/**
  `fetch_data` of the three scripts: one authenticated GET, `raise_for_status()`, then
  `resp.json().get(key, [])`. The network call is replaced by its response, given as input.
 */
module Envelope {
  import opened Wrappers
  import opened Values

  /**
    What a top-level member of the response body holds, as far as the callers' truth tests
    and loops can tell it apart.
   */
  datatype Member =
    | List(items: seq<Record>)  // an array of objects
    | EmptyIterable             // "" or {}: falsy, and iterating it yields nothing
    | FalsyScalar               // null, 0 or false: falsy, and iterating it raises TypeError
    | NotAList                  // anything truthy that is not an array of objects: iterating it raises

  /** The parsed body: a JSON object, or anything `.get` cannot be called on (including unparseable text). */
  datatype Body = Object(members: map<string, Member>) | NotAnObject

  /** What `requests.get` gives back: a response, or an exception raised before any response
      arrived (connection refused, DNS failure, timeout). */
  datatype Response = Response(status: int, body: Body) | NoResponse

  /** Everything that ends a source's run before a record is cleaned. */
  datatype FetchError =
    | ConnectionError         // requests.get raises without a response
    | HttpError(status: int)  // raise_for_status
    | BadBody                 // resp.json() fails or is not an object
    | BadPayload              // the payload cannot be iterated as a list of objects: the caller raises

  /** The envelope key of the reading sources and of the master-data sources. */
  const ContentKey := "content"
  const DataKey := "data"

  /** `raise_for_status()`: informational, success and redirect statuses pass, every client and server error raises. */
  function RaisesForStatus(status: int): (b: bool)
    ensures status < 400 ==> !b
    ensures 400 <= status < 600 ==> b
  {
    400 <= status < 600
  }

  /** `fetch_data`: the request, `raise_for_status()`, then `resp.json().get(key, [])`. */
  function FetchData(resp: Response, key: string): (r: Result<Member, FetchError>)
    ensures resp.NoResponse? ==> r == Err(ConnectionError)
    ensures resp.Response? && RaisesForStatus(resp.status) ==> r == Err(HttpError(resp.status))
    ensures resp.Response? && !RaisesForStatus(resp.status) && resp.body.NotAnObject? ==> r == Err(BadBody)
    ensures r.Ok? <==> resp.Response? && !RaisesForStatus(resp.status) && resp.body.Object?
    ensures r.Ok? && key !in resp.body.members ==> r.value == List([])
    ensures r.Ok? && key in resp.body.members ==> r.value == resp.body.members[key]
  {
    if resp.NoResponse? then Err(ConnectionError)
    else if RaisesForStatus(resp.status) then Err(HttpError(resp.status))
    else match resp.body
      case NotAnObject => Err(BadBody)
      case Object(members) => Ok(if key in members then members[key] else List([]))
  }

  /**
    The records a reading script gets from `fetch_data()`: it iterates the payload
    (`for r in raw`), so an empty string or object yields no record and a null raises.
   */
  function FetchReadings(resp: Response): (r: Result<seq<Record>, FetchError>)
    ensures FetchData(resp, ContentKey).Err? ==> r == Err(FetchData(resp, ContentKey).error)
    ensures r.Ok? <==> FetchData(resp, ContentKey).Ok? && !FetchData(resp, ContentKey).value.FalsyScalar?
                                                        && !FetchData(resp, ContentKey).value.NotAList?
    ensures r.Err? && FetchData(resp, ContentKey).Ok? ==> r == Err(BadPayload)
    ensures r.Ok? && FetchData(resp, ContentKey).value.List? ==> r.value == FetchData(resp, ContentKey).value.items
    ensures r.Ok? && FetchData(resp, ContentKey).value.EmptyIterable? ==> r.value == []
  {
    match FetchData(resp, ContentKey)
    case Err(e) => Err(e)
    case Ok(m) =>
      match m
      case List(items) => Ok(items)
      case EmptyIterable => Ok([])
      case FalsyScalar => Err(BadPayload)
      case NotAList => Err(BadPayload)
  }

  /**
    The records `upsert_data` writes from a master source's `fetch_data(api)`: a falsy
    payload returns before the loop (`if not records: return 0`), anything else is iterated.
   */
  function FetchStations(resp: Response): (r: Result<seq<Record>, FetchError>)
    ensures FetchData(resp, DataKey).Err? ==> r == Err(FetchData(resp, DataKey).error)
    ensures r.Ok? <==> FetchData(resp, DataKey).Ok? && !FetchData(resp, DataKey).value.NotAList?
    ensures r.Err? && FetchData(resp, DataKey).Ok? ==> r == Err(BadPayload)
    ensures r.Ok? && FetchData(resp, DataKey).value.List? ==> r.value == FetchData(resp, DataKey).value.items
    ensures r.Ok? && !FetchData(resp, DataKey).value.List? ==> r.value == []
  {
    match FetchData(resp, DataKey)
    case Err(e) => Err(e)
    case Ok(m) =>
      match m
      case List(items) => Ok(items)
      case EmptyIterable => Ok([])
      case FalsyScalar => Ok([])
      case NotAList => Err(BadPayload)
  }

  /** A null, 0 or false payload ends a reading source but is an empty batch for a master source;
      on every other payload the two callers agree. */
  lemma FalsyPayloadDiffers(status: int, members: map<string, Member>, m: Member)
    requires !RaisesForStatus(status)
    ensures var readings := FetchReadings(Response(status, Object(members[ContentKey := m])));
            var stations := FetchStations(Response(status, Object(members[DataKey := m])));
            && (readings.Ok? <==> !m.FalsyScalar? && stations.Ok?)
            && (readings.Ok? ==> readings == stations)
  {
  }

  /** Wrapping a list under the envelope key and fetching it gives the list back;
      the other members of the body play no part. */
  lemma EnvelopeRoundTrip(status: int, others: map<string, Member>, items: seq<Record>)
    requires !RaisesForStatus(status)
    ensures FetchReadings(Response(status, Object(others[ContentKey := List(items)]))) == Ok(items)
    ensures FetchStations(Response(status, Object(others[DataKey := List(items)]))) == Ok(items)
  {
  }

  /** The result depends on the body only through the member under the key. */
  lemma FetchReadsOnlyItsKey(status: int, m1: map<string, Member>, m2: map<string, Member>, key: string)
    requires key in m1 <==> key in m2
    requires key in m1 ==> m1[key] == m2[key]
    ensures FetchData(Response(status, Object(m1)), key) == FetchData(Response(status, Object(m2)), key)
  {
  }
}

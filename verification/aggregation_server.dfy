/**
 * One connection of the aggregation server (`ClientHandler.run`,
 * `handleGet`, `handlePut`) as a pure function from the request lines and
 * the current store to the response lines and the next store.  Connections
 * are handled one after another; the listener, sockets and threads are not
 * modelled.  Gson is a parameter.
 */
module AggregationServer {
  import opened Base
  import opened Text
  import opened WeatherRecord
  import opened Framing

  /** `weatherDataMap`: station id to its latest record. */
  type Store = map<string, WeatherData>

  /** What `gson.fromJson(body, WeatherData.class)` does with a body: throw, return `null`, or return a record. */
  datatype Decoded = Threw | Null | Decoded(data: WeatherData)

  /** The two Gson calls the server makes. */
  datatype Json = Json(fromJson: string -> Decoded, toJson: Store -> string)

  const StatusOk := "HTTP/1.1 200 OK"
  const StatusBadRequest := "HTTP/1.1 400 Bad Request"
  const StatusServerError := "HTTP/1.1 500 Internal Server Error"
  const JsonContentType := "Content-Type: application/json"

  /** The lines written back on the socket and the store afterwards. */
  datatype Exchange = Exchange(response: seq<string>, store: Store)

  /** Every entry is filed under its own record's id. */
  ghost predicate WellKeyed(store: Store) {
    forall k :: k in store ==> store[k].id == Some(k)
  }

  /** `handleGet`: a fixed 200 header block, then the whole store as JSON, or `{}` when it is empty. */
  function HandleGet(store: Store, json: Json): (response: seq<string>)
    ensures |response| == 4
    ensures response[0] == StatusOk && response[1] == JsonContentType && response[2] == ""
    ensures |store| == 0 ==> response[3] == "{}"
    ensures |store| > 0 ==> response[3] == json.toJson(store)
  {
    [StatusOk, JsonContentType, "", if |store| > 0 then json.toJson(store) else "{}"]
  }

  /**
   * `handlePut`, given the lines after the request line.  A record with an id
   * (possibly "") replaces the entry for that id whole and answers 200; a
   * `null` result or a record without id answers 400; a throwing parse
   * answers 500.  Only the 200 case touches the store, and nothing is ever
   * removed.
   */
  function HandlePut(lines: seq<string>, store: Store, json: Json): (r: Exchange)
    ensures r.response == [StatusOk] || r.response == [StatusBadRequest] || r.response == [StatusServerError]
    ensures r.response == [StatusOk] <==>
      json.fromJson(ExtractBody(lines)).Decoded? && json.fromJson(ExtractBody(lines)).data.id.Some?
    ensures r.response == [StatusServerError] <==> json.fromJson(ExtractBody(lines)).Threw?
    ensures r.response != [StatusOk] ==> r.store == store
    ensures r.response == [StatusOk] ==>
      var d := json.fromJson(ExtractBody(lines)).data;
      && d.id.value in r.store && r.store[d.id.value] == d
      && |r.store| == (if d.id.value in store then |store| else |store| + 1)
      && (forall k :: k != d.id.value ==> (k in r.store <==> k in store))
      && (forall k :: k != d.id.value && k in store ==> r.store[k] == store[k])
    ensures store.Keys <= r.store.Keys
    ensures WellKeyed(store) ==> WellKeyed(r.store)
  {
    var body := ExtractBody(lines);
    match json.fromJson(body)
    case Threw => Exchange([StatusServerError], store)
    case Null => Exchange([StatusBadRequest], store)
    case Decoded(d) =>
      if d.id.None? then Exchange([StatusBadRequest], store)
      else Exchange([StatusOk], store[d.id.value := d])
  }

  /**
   * `ClientHandler.run`: only the method prefix of the first line is looked
   * at.  With no first line at all the handler dies on a null dereference,
   * so nothing is written and the store is untouched.
   */
  function Handle(request: seq<string>, store: Store, json: Json): (r: Exchange)
    ensures |request| == 0 ==> r == Exchange([], store)
    ensures |request| > 0 && StartsWith(request[0], "GET") ==>
      r.store == store && r.response == HandleGet(store, json)
    ensures |request| > 0 && !StartsWith(request[0], "GET") && StartsWith(request[0], "PUT") ==>
      r == HandlePut(request[1..], store, json)
    ensures |request| > 0 && !StartsWith(request[0], "GET") && !StartsWith(request[0], "PUT") ==>
      r == Exchange([StatusBadRequest], store)
    ensures store.Keys <= r.store.Keys
    ensures WellKeyed(store) ==> WellKeyed(r.store)
  {
    if |request| == 0 then Exchange([], store)
    else if StartsWith(request[0], "GET") then Exchange(HandleGet(store, json), store)
    else if StartsWith(request[0], "PUT") then HandlePut(request[1..], store, json)
    else Exchange([StatusBadRequest], store)
  }

  /**
   * Path and version are never checked: any two request lines with the same
   * method prefix are handled identically.
   */
  lemma OnlyMethodMatters(line: string, other: string, rest: seq<string>, store: Store, json: Json)
    requires (StartsWith(line, "GET") && StartsWith(other, "GET"))
          || (StartsWith(line, "PUT") && StartsWith(other, "PUT"))
    ensures Handle([line] + rest, store, json) == Handle([other] + rest, store, json)
  {
    assert ([line] + rest)[1..] == rest == ([other] + rest)[1..];
  }

  /** Validation only rejects a missing id: a record whose id is the empty string is stored under "". */
  lemma EmptyIdAccepted(lines: seq<string>, store: Store, json: Json, d: WeatherData)
    requires json.fromJson(ExtractBody(lines)) == Decoded(d)
    requires d.id == Some("")
    ensures HandlePut(lines, store, json) == Exchange([StatusOk], store["" := d])
  {
  }

  /** The stores after serving `requests` one after another. */
  function Serve(store: Store, requests: seq<seq<string>>, json: Json): Store
    decreases |requests|
  {
    if |requests| == 0 then store
    else Serve(Handle(requests[0], store, json).store, requests[1..], json)
  }

  /**
   * Over any run of connections the store stays keyed by id and never loses
   * an entry: there is no eviction.
   */
  lemma {:induction false} ServeKeepsEntries(store: Store, requests: seq<seq<string>>, json: Json)
    ensures store.Keys <= Serve(store, requests, json).Keys
    ensures WellKeyed(store) ==> WellKeyed(Serve(store, requests, json))
    decreases |requests|
  {
    if |requests| > 0 {
      ServeKeepsEntries(Handle(requests[0], store, json).store, requests[1..], json);
    }
  }

  /**
   * Two PUTs for the same id leave one entry holding the second record, and
   * the second PUT does not change the number of entries.
   */
  lemma OverwriteKeepsOneEntry(first: seq<string>, second: seq<string>, store: Store, json: Json)
    requires |first| > 0 && StartsWith(first[0], "PUT")
    requires |second| > 0 && StartsWith(second[0], "PUT")
    requires json.fromJson(ExtractBody(first[1..])).Decoded?
    requires json.fromJson(ExtractBody(second[1..])).Decoded?
    requires json.fromJson(ExtractBody(first[1..])).data.id.Some?
    requires json.fromJson(ExtractBody(second[1..])).data.id == json.fromJson(ExtractBody(first[1..])).data.id
    ensures
      var id := json.fromJson(ExtractBody(first[1..])).data.id.value;
      var after := Serve(store, [first, second], json);
      && id in after && after[id] == json.fromJson(ExtractBody(second[1..])).data
      && |after| == |Handle(first, store, json).store|
  {
    var mid := Handle(first, store, json).store;
    assert Serve(store, [first, second], json) == Serve(mid, [second], json);
    assert Serve(mid, [second], json) == Handle(second, mid, json).store;
  }
}

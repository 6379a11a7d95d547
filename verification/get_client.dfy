/**
 * The GET client (`GETClient.main`): it bumps its Lamport clock, sends a
 * GET carrying the new clock value, reads the whole response, keeps the
 * body, and cuts the body at the first `Lamport-Clock` before handing it to
 * Gson.  Sockets, Gson and printing are left out.
 */
module GetClient {
  import opened Base
  import opened Text
  import opened Numbers
  import opened Lamport
  import opened Framing
  import AggregationServer

  const GetLine := "GET /weather.json HTTP/1.1"
  const ClockHeaderPrefix := "Lamport-Clock: "
  const ClockMarker := "Lamport-Clock"

  /** The request lines printed on the socket and the client clock afterwards. */
  datatype Sent = Sent(request: seq<string>, clock: Clock)

  /**
   * The clock is incremented once, then the request line, a `Lamport-Clock`
   * header that reads back as the new clock value, and the blank line that
   * ends the headers are sent.
   */
  function SendRequest(c: Clock): (s: Sent)
    ensures GetClock(s.clock) == GetClock(c) + 1
    ensures |s.request| == 3 && s.request[0] == GetLine && s.request[2] == ""
    ensures s.request[1] == ClockHeaderPrefix + IntToString(GetClock(s.clock))
    ensures StartsWith(s.request[1], ClockHeaderPrefix)
    ensures GetClock(s.clock) <= MaxInt ==>
      ParseInt(s.request[1][|ClockHeaderPrefix|..]) == Some(GetClock(s.clock))
  {
    var next := Increment(c);
    var header := ClockHeaderPrefix + IntToString(GetClock(next));
    assert header[|ClockHeaderPrefix|..] == IntToString(GetClock(next));
    assert GetClock(next) <= MaxInt ==> ParseInt(IntToString(GetClock(next))) == Some(GetClock(next)) by {
      if GetClock(next) <= MaxInt {
        ParseIntToString(GetClock(next));
      }
    }
    Sent([GetLine, header, ""], next)
  }

  /** A fresh client announces clock value 1. */
  lemma FreshClientSendsOne()
    ensures SendRequest(Init()).request[1] == "Lamport-Clock: 1"
    ensures GetClock(SendRequest(Init()).clock) == 1
  {
  }

  /**
   * `body.split("Lamport-Clock")[0].trim()`.  When the body is nothing but
   * copies of the marker, `split` returns an empty array and indexing it
   * throws; that is `None`.
   */
  function JsonText(body: string): Option<string> {
    var parts := JavaSplit(body, ClockMarker);
    if |parts| == 0 then None else Some(Trim(parts[0]))
  }

  /**
   * The JSON text is the part of the body before the first `Lamport-Clock`,
   * trimmed, or the whole body trimmed when there is none; a body made only
   * of one or more markers makes the client throw.
   */
  lemma JsonTextSpec(body: string)
    ensures JsonText(body) == match IndexOf(body, ClockMarker)
      case None => Some(Trim(body))
      case Some(i) =>
        if exists n: nat :: n >= 1 && body == Repeat(ClockMarker, n) then None
        else Some(Trim(body[..i]))
  {
    SplitHead(body, ClockMarker);
  }

  /** The body of the response, cut at the first marker and trimmed. */
  function ReadResponse(lines: seq<string>): Option<string> {
    JsonText(ExtractBody(lines))
  }

  /** The server routes the client's request to its GET branch and leaves the store alone. */
  lemma ServerAnswersClientGet(c: Clock, store: AggregationServer.Store, json: AggregationServer.Json)
    ensures AggregationServer.Handle(SendRequest(c).request, store, json) ==
      AggregationServer.Exchange(AggregationServer.HandleGet(store, json), store)
  {
    assert SendRequest(c).request[0][..3] == "GET";
  }

  /**
   * What the client makes of a GET response: the JSON line the server
   * wrote, trimmed, as long as it has no `Lamport-Clock` in it.
   */
  lemma ClientReadsServerJson(store: AggregationServer.Store, json: AggregationServer.Json)
    requires !Contains(AggregationServer.HandleGet(store, json)[3], ClockMarker)
    ensures ReadResponse(AggregationServer.HandleGet(store, json)) ==
      Some(Trim(AggregationServer.HandleGet(store, json)[3]))
  {
    var response := AggregationServer.HandleGet(store, json);
    assert response == [response[0], response[1]] + [""] + [response[3]];
    BodyAfterHeaders([response[0], response[1]], response[3]);
    JsonTextSpec(response[3]);
  }

  /** Against an empty store the client reads the JSON text `{}`. */
  lemma EmptyStoreReadsEmptyObject(json: AggregationServer.Json)
    ensures ReadResponse(AggregationServer.HandleGet(map[], json)) == Some("{}")
  {
    var body := "{}";
    assert IndexOf(body, ClockMarker) == None;
    ClientReadsServerJson(map[], json);
    TrimNoMargins(body);
  }
}

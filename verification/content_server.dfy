/**
 * The content server: `readFromFile` turns the lines of a `key:value` file
 * into a record, and `main` frames that record as one PUT request.  Reading
 * the file and opening the socket are left out; the file arrives as its
 * lines and the request leaves as the lines printed on the socket.
 */
module ContentServer {
  import opened Base
  import opened Text
  import opened Numbers
  import opened WeatherRecord
  import opened Framing
  import AggregationServer

  /**
   * `line.split(":")` as `readFromFile` uses it: fewer than two fields skips
   * the line, otherwise the first field trimmed is the key and the second
   * field trimmed is the value.
   */
  function KeyValue(line: string): Option<(string, string)> {
    var parts := JavaSplit(line, ":");
    if |parts| < 2 then None else Some((Trim(parts[0]), Trim(parts[1])))
  }

  /** The text of `t` up to its first colon, or all of it. */
  function FirstField(t: string): (r: string)
    ensures |r| <= |t| && r == t[..|r|]
    ensures forall k :: 0 <= k < |r| ==> r[k] != ':'
    ensures |r| < |t| ==> t[|r|] == ':'
  {
    match IndexOf(t, ":")
    case None =>
      assert forall k :: 0 <= k < |t| ==> t[k] != ':' by {
        forall k | 0 <= k < |t| ensures t[k] != ':' {
          assert !OccursAt(t, ":", k);
          assert t[k..k + 1] == [t[k]];
        }
      }
      t
    case Some(j) =>
      assert forall k :: 0 <= k < j ==> t[k] != ':' by {
        forall k | 0 <= k < j ensures t[k] != ':' {
          assert !OccursAt(t, ":", k);
          assert t[k..k + 1] == [t[k]];
        }
      }
      assert t[j..j + 1] == [t[j]];
      t[..j]
  }

  /**
   * What `KeyValue` reads off a line, in terms of its first colon: no colon,
   * or nothing but colons after it, skips the line; otherwise the key is the
   * text before the first colon and the value the text between the first
   * and the second colon, both trimmed.
   */
  lemma KeyValueSpec(line: string)
    ensures KeyValue(line) == match IndexOf(line, ":")
      case None => None
      case Some(i) =>
        if HasOther(line[i + 1..], ':') then Some((Trim(line[..i]), Trim(FirstField(line[i + 1..]))))
        else None
  {
    match IndexOf(line, ":")
    case None =>
      assert JavaSplit(line, ":") == [line];
    case Some(i) =>
      var rest := line[i + 1..];
      var parts := JavaSplit(line, ":");
      SplitAtFirstColon(line, i);
      FieldsAfterFirstColon(line, i);
      if |parts| >= 2 {
        assert parts[0] == line[..i];
        assert parts[1] == SplitAll(rest, ":")[0];
        FirstFieldIsHead(rest);
      }
  }

  /** Splitting at the first colon `i`: the field before it, then the fields of the rest. */
  lemma SplitAtFirstColon(line: string, i: nat)
    requires IndexOf(line, ":") == Some(i)
    ensures SplitAll(line, ":") == [line[..i]] + SplitAll(line[i + 1..], ":")
  {
  }

  /** The first field of a split is the text up to the first colon. */
  lemma FirstFieldIsHead(t: string)
    ensures SplitAll(t, ":")[0] == FirstField(t)
  {
  }

  /** `split` keeps a second field exactly when something other than colons follows the first colon. */
  lemma FieldsAfterFirstColon(line: string, i: nat)
    requires IndexOf(line, ":") == Some(i)
    ensures |JavaSplit(line, ":")| >= 2 <==> HasOther(line[i + 1..], ':')
  {
    var rest := line[i + 1..];
    var all := SplitAll(line, ":");
    var parts := JavaSplit(line, ":");
    SplitAtFirstColon(line, i);
    SplitCharAllEmpty(rest, ':');
    if |parts| >= 2 {
      assert parts[|parts| - 1] == all[|parts| - 1] != "";
      assert SplitAll(rest, ":")[|parts| - 2] != "";
      assert !AllEmpty(SplitAll(rest, ":"));
    }
    if HasOther(rest, ':') {
      var m :| 0 <= m < |SplitAll(rest, ":")| && SplitAll(rest, ":")[m] != "";
      assert all[m + 1] != "";
    }
  }

  /** A line without a colon is one field and is skipped. */
  lemma NoColonSkipped(line: string)
    requires forall k :: 0 <= k < |line| ==> line[k] != ':'
    ensures KeyValue(line) == None
  {
    KeyValueSpec(line);
    IndexOfCharAbsent(line, ':');
  }

  /** A line with one colon: the trimmed text on either side, unless nothing follows the colon. */
  lemma OneColon(key: string, value: string)
    requires forall k :: 0 <= k < |key| ==> key[k] != ':'
    requires forall k :: 0 <= k < |value| ==> value[k] != ':'
    ensures KeyValue(key + ":" + value) == if value == "" then None else Some((Trim(key), Trim(value)))
  {
    var line := key + ":" + value;
    KeyValueSpec(line);
    IndexOfChar(line, ':', |key|);
    assert line[..|key|] == key;
    assert line[|key| + 1..] == value;
    IndexOfCharAbsent(value, ':');
    if value != "" {
      assert value[0] != ':';
    }
  }

  /** A value, or failing that a tail, with something other than colons keeps a field alive after the colon. */
  lemma NonColonAfter(value: string, tail: string)
    requires forall k :: 0 <= k < |value| ==> value[k] != ':'
    requires value != "" || HasOther(tail, ':')
    ensures HasOther(value + ":" + tail, ':')
  {
    var rest := value + ":" + tail;
    if value != "" {
      assert rest[0] != ':';
    } else {
      var k :| 0 <= k < |tail| && tail[k] != ':';
      assert rest[1 + k] == tail[k];
    }
  }

  /**
   * Everything after a second colon is dropped: the value is only the text
   * between the first two colons (so "15/04:00pm" reads as "15/04"), and it
   * may be empty as long as something other than colons follows.
   */
  lemma SecondColonDiscards(key: string, value: string, tail: string)
    requires forall k :: 0 <= k < |key| ==> key[k] != ':'
    requires forall k :: 0 <= k < |value| ==> value[k] != ':'
    requires value != "" || HasOther(tail, ':')
    ensures KeyValue(key + ":" + value + ":" + tail) == Some((Trim(key), Trim(value)))
  {
    var rest := value + ":" + tail;
    var line := key + ":" + value + ":" + tail;
    assert line[..|key|] == key && line[|key| + 1..] == rest by {
      assert line == (key + ":") + rest;
    }
    assert IndexOf(line, ":") == Some(|key|) by {
      IndexOfChar(line, ':', |key|);
    }
    assert FirstField(rest) == value by {
      IndexOfChar(rest, ':', |value|);
      assert rest[..|value|] == value;
    }
    NonColonAfter(value, tail);
    KeyValueAt(line, |key|);
  }

  /** `KeyValueSpec` for a line whose first colon is at `i` and is followed by more than colons. */
  lemma KeyValueAt(line: string, i: nat)
    requires IndexOf(line, ":") == Some(i)
    requires HasOther(line[i + 1..], ':')
    ensures KeyValue(line) == Some((Trim(line[..i]), Trim(FirstField(line[i + 1..]))))
  {
    KeyValueSpec(line);
  }

  /** A malformed number aborts the read (`NumberFormatException`). */
  datatype ReadError = BadNumber(field: Field, text: string)

  /**
   * The value a line assigns to field `f`: strings are taken as they are,
   * numbers go through `Integer.parseInt` or the given `Double.parseDouble`.
   */
  function Convert(f: Field, text: string, parseDouble: string -> Option<Double>): (r: Option<FieldValue>)
    ensures r.Some? ==> Fits(f, r.value)
    ensures KindOf(f) == TextKind ==> r.Some? && r.value.text == Some(text)
    ensures KindOf(f) == WholeKind ==> (r.Some? <==> ParseInt(text).Some?)
    ensures KindOf(f) == WholeKind && r.Some? ==> Some(r.value.whole) == ParseInt(text) && IsInt32(r.value.whole)
    ensures KindOf(f) == RealKind ==> (r.Some? <==> parseDouble(text).Some?)
    ensures KindOf(f) == RealKind && r.Some? ==> Some(r.value.number) == parseDouble(text)
  {
    match KindOf(f)
    case TextKind => Some(TextValue(Some(text)))
    case WholeKind =>
      (match ParseInt(text)
       case None => None
       case Some(n) => Some(WholeValue(n)))
    case RealKind =>
      (match parseDouble(text)
       case None => None
       case Some(x) => Some(RealValue(x)))
  }

  /** What one line of the file asks for: set field `.0` from text `.1`, or nothing. */
  type Assignment = Option<(Field, string)>

  /**
   * The `switch` on one line: a skipped line and a key that names no field
   * assign nothing; otherwise the line assigns its value to the named field.
   */
  function Classify(line: string): (a: Assignment)
    ensures KeyValue(line).None? ==> a.None?
    ensures KeyValue(line).Some? ==>
      (a.Some? <==> (exists f :: FieldName(f) == KeyValue(line).value.0))
    ensures a.Some? ==> FieldName(a.value.0) == KeyValue(line).value.0 && a.value.1 == KeyValue(line).value.1
  {
    match KeyValue(line)
    case None => None
    case Some((key, value)) =>
      match FieldOfKey(key)
      case None => None
      case Some(f) => assert FieldName(f) == key; Some((f, value))
  }

  /** Each line of the file classified on its own. */
  function ClassifyAll(lines: seq<string>): seq<Assignment> {
    Map(Classify, lines)
  }

  /** An assignment of malformed text to a numeric field. */
  predicate Bad(a: Assignment, parseDouble: string -> Option<Double>) {
    a.Some? && Convert(a.value.0, a.value.1, parseDouble).None?
  }

  /** A line that names a numeric field with text that does not parse. */
  predicate BadLine(line: string, parseDouble: string -> Option<Double>) {
    Bad(Classify(line), parseDouble)
  }

  /**
   * One pass of the read loop: nothing to assign changes nothing; otherwise
   * exactly the named field is set, or the read aborts on a bad number.
   */
  function Apply(d: WeatherData, a: Assignment, parseDouble: string -> Option<Double>): (r: Result<WeatherData, ReadError>)
    ensures a.None? ==> r == Ok(d)
    ensures r.Err? <==> Bad(a, parseDouble)
    ensures r.Ok? && a.Some? ==>
      && Some(Get(r.value, a.value.0)) == Convert(a.value.0, a.value.1, parseDouble)
      && forall g :: g != a.value.0 ==> Get(r.value, g) == Get(d, g)
  {
    match a
    case None => Ok(d)
    case Some((f, text)) =>
      match Convert(f, text, parseDouble)
      case None => Err(BadNumber(f, text))
      case Some(v) => Ok(Set(d, f, v))
  }

  /** The read loop over classified lines: start from `new WeatherData()`, apply in order, stop at the first error. */
  function ReadAll(assignments: seq<Assignment>, parseDouble: string -> Option<Double>): Result<WeatherData, ReadError>
    decreases |assignments|
  {
    if |assignments| == 0 then Ok(Empty())
    else
      match ReadAll(assignments[..|assignments| - 1], parseDouble)
      case Err(e) => Err(e)
      case Ok(d) => Apply(d, assignments[|assignments| - 1], parseDouble)
  }

  /** `readFromFile`, given the lines of the file. */
  function ReadRecord(lines: seq<string>, parseDouble: string -> Option<Double>): Result<WeatherData, ReadError> {
    ReadAll(ClassifyAll(lines), parseDouble)
  }

  /** The text of the last assignment to `f`, if there is one. */
  function LastAssigned(assignments: seq<Assignment>, f: Field): Option<string>
    decreases |assignments|
  {
    if |assignments| == 0 then None
    else
      var a := assignments[|assignments| - 1];
      if a.Some? && a.value.0 == f then Some(a.value.1)
      else LastAssigned(assignments[..|assignments| - 1], f)
  }

  lemma {:induction false} ReadAllLastWins(assignments: seq<Assignment>, parseDouble: string -> Option<Double>, f: Field)
    requires ReadAll(assignments, parseDouble).Ok?
    ensures match LastAssigned(assignments, f)
      case None => Get(ReadAll(assignments, parseDouble).value, f) == Default(f)
      case Some(text) => Convert(f, text, parseDouble) == Some(Get(ReadAll(assignments, parseDouble).value, f))
    decreases |assignments|
  {
    if |assignments| > 0 {
      var front := assignments[..|assignments| - 1];
      var a := assignments[|assignments| - 1];
      var d0 := ReadAll(front, parseDouble).value;
      var d := ReadAll(assignments, parseDouble).value;
      assert Apply(d0, a, parseDouble) == Ok(d);
      ReadAllLastWins(front, parseDouble, f);
      if a.Some? && a.value.0 == f {
        assert LastAssigned(assignments, f) == Some(a.value.1);
      } else {
        assert LastAssigned(assignments, f) == LastAssigned(front, f);
        assert Get(d, f) == Get(d0, f);
      }
    }
  }

  /**
   * After a successful read each field holds the value of the last line that
   * names it, or its default when no line does: repeated keys are won by the
   * last line, and unmentioned fields stay `null` / `0`.
   */
  lemma LastLineWins(lines: seq<string>, parseDouble: string -> Option<Double>, f: Field)
    requires ReadRecord(lines, parseDouble).Ok?
    ensures match LastAssigned(ClassifyAll(lines), f)
      case None => Get(ReadRecord(lines, parseDouble).value, f) == Default(f)
      case Some(text) => Convert(f, text, parseDouble) == Some(Get(ReadRecord(lines, parseDouble).value, f))
  {
    ReadAllLastWins(ClassifyAll(lines), parseDouble, f);
  }

  lemma {:induction false} ReadAllFailsIff(assignments: seq<Assignment>, parseDouble: string -> Option<Double>)
    ensures ReadAll(assignments, parseDouble).Err? <==>
      exists i :: 0 <= i < |assignments| && Bad(assignments[i], parseDouble)
    decreases |assignments|
  {
    if |assignments| > 0 {
      var front := assignments[..|assignments| - 1];
      var a := assignments[|assignments| - 1];
      ReadAllFailsIff(front, parseDouble);
      assert forall i :: 0 <= i < |front| ==> front[i] == assignments[i];
      match ReadAll(front, parseDouble)
      case Err(_) =>
        var i :| 0 <= i < |front| && Bad(front[i], parseDouble);
        assert Bad(assignments[i], parseDouble);
      case Ok(d0) =>
        assert ReadAll(assignments, parseDouble) == Apply(d0, a, parseDouble);
        if exists i :: 0 <= i < |assignments| && Bad(assignments[i], parseDouble) {
          var i :| 0 <= i < |assignments| && Bad(assignments[i], parseDouble);
          assert i == |assignments| - 1;
        }
    }
  }

  /** The read aborts exactly when some line names a numeric field with a malformed number. */
  lemma ReadFailsIff(lines: seq<string>, parseDouble: string -> Option<Double>)
    ensures ReadRecord(lines, parseDouble).Err? <==>
      exists i :: 0 <= i < |lines| && BadLine(lines[i], parseDouble)
  {
    var assignments := ClassifyAll(lines);
    ReadAllFailsIff(assignments, parseDouble);
    if exists i :: 0 <= i < |lines| && BadLine(lines[i], parseDouble) {
      var i :| 0 <= i < |lines| && BadLine(lines[i], parseDouble);
      assert Bad(assignments[i], parseDouble);
    }
  }

  lemma {:induction false} SkipIgnored(before: seq<Assignment>, after: seq<Assignment>, parseDouble: string -> Option<Double>)
    ensures ReadAll(before + [None] + after, parseDouble) == ReadAll(before + after, parseDouble)
    decreases |after|
  {
    if |after| == 0 {
      assert before + [None] + after == before + [None];
      assert (before + [None])[..|before|] == before;
      assert before + after == before;
    } else {
      var front := after[..|after| - 1];
      SkipIgnored(before, front, parseDouble);
      assert (before + [None] + after)[..|before| + |after|] == before + [None] + front;
      assert (before + after)[..|before| + |after| - 1] == before + front;
    }
  }

  /**
   * A line that assigns nothing (no second field, or a key that names no
   * field) can be dropped from anywhere in the file without changing the
   * result.
   */
  lemma IgnoredLine(before: seq<string>, line: string, after: seq<string>, parseDouble: string -> Option<Double>)
    requires Classify(line).None?
    ensures ReadRecord(before + [line] + after, parseDouble) == ReadRecord(before + after, parseDouble)
  {
    MapAppend(Classify, before, [line]);
    MapAppend(Classify, before + [line], after);
    MapAppend(Classify, before, after);
    assert Map(Classify, [line]) == [None];
    SkipIgnored(ClassifyAll(before), ClassifyAll(after), parseDouble);
  }

  const PutLine := "PUT /weather.json HTTP/1.1"
  const ContentLengthPrefix := "Content-Length: "

  /**
   * The lines `main` prints for a JSON text: request line, content type,
   * a content length that reads back as the length of the text, a blank
   * line, the text.
   */
  function PutRequest(json: string): (request: seq<string>)
    ensures |request| == 5 && request[0] == PutLine && request[3] == "" && request[4] == json
    ensures request[1] == AggregationServer.JsonContentType
    ensures request[2] == ContentLengthPrefix + IntToString(|json|)
    ensures StartsWith(request[2], ContentLengthPrefix)
    ensures |json| <= MaxInt ==> ParseInt(request[2][|ContentLengthPrefix|..]) == Some(|json|)
  {
    var length := ContentLengthPrefix + IntToString(|json|);
    assert length[|ContentLengthPrefix|..] == IntToString(|json|);
    assert |json| <= MaxInt ==> ParseInt(IntToString(|json|)) == Some(|json|) by {
      if |json| <= MaxInt {
        ParseIntToString(|json|);
      }
    }
    [PutLine, AggregationServer.JsonContentType, length, "", json]
  }

  /** The server takes a request from `PutRequest` as a PUT and reads back exactly the JSON text as its body. */
  lemma PutRequestBody(json: string)
    ensures StartsWith(PutRequest(json)[0], "PUT") && !StartsWith(PutRequest(json)[0], "GET")
    ensures ExtractBody(PutRequest(json)[1..]) == json
  {
    var request := PutRequest(json);
    assert request[0][..3] == "PUT";
    assert request[1..] == [request[1], request[2]] + [""] + [json];
    BodyAfterHeaders([request[1], request[2]], json);
  }

  /**
   * `main` after argument parsing: a read that throws sends nothing, and so
   * does a `toJson` that throws (Gson refuses NaN and infinite doubles, which
   * `parseDouble` can produce); otherwise the record, id or not, is
   * serialised and sent.
   */
  function Send(lines: seq<string>, parseDouble: string -> Option<Double>, toJson: WeatherData -> Option<string>): (request: Option<seq<string>>)
    ensures request.None? <==>
      || (exists i :: 0 <= i < |lines| && BadLine(lines[i], parseDouble))
      || (ReadRecord(lines, parseDouble).Ok? && toJson(ReadRecord(lines, parseDouble).value).None?)
    ensures request.Some? ==>
      && ReadRecord(lines, parseDouble).Ok?
      && toJson(ReadRecord(lines, parseDouble).value).Some?
      && request.value == PutRequest(toJson(ReadRecord(lines, parseDouble).value).value)
  {
    ReadFailsIff(lines, parseDouble);
    match ReadRecord(lines, parseDouble)
    case Err(_) => None
    case Ok(d) =>
      match toJson(d)
      case None => None
      case Some(text) => Some(PutRequest(text))
  }

  /**
   * A request from `Send` reaches the server's PUT branch with the JSON text
   * as body; if Gson reads back the record it wrote, the server stores it
   * under its id (200) or refuses an id-less record (400).
   */
  lemma SentRecordIsStored(lines: seq<string>, parseDouble: string -> Option<Double>, toJson: WeatherData -> Option<string>,
                           store: AggregationServer.Store, json: AggregationServer.Json)
    requires Send(lines, parseDouble, toJson).Some?
    requires json.fromJson(toJson(ReadRecord(lines, parseDouble).value).value) == AggregationServer.Decoded(ReadRecord(lines, parseDouble).value)
    ensures
      var d := ReadRecord(lines, parseDouble).value;
      var r := AggregationServer.Handle(Send(lines, parseDouble, toJson).value, store, json);
      && (d.id.Some? ==> r.response == [AggregationServer.StatusOk] && r.store == store[d.id.value := d])
      && (d.id.None? ==> r.response == [AggregationServer.StatusBadRequest] && r.store == store)
  {
    var d := ReadRecord(lines, parseDouble).value;
    var text := toJson(d).value;
    assert Send(lines, parseDouble, toJson).value == PutRequest(text);
    PutRequestBody(text);
  }
}

# WeatherSystem core in Dafny

A model of the sequential logic of a small weather-aggregation system written
in Java. Content servers read a `key:value` file into a flat `WeatherData`
record and PUT it as JSON. The aggregation server keeps a map from station id
to the latest record and answers GET with the whole map. A GET client keeps a
Lamport clock, sends a GET and extracts the JSON from the response.

Modules:

- `Base`: `Option` (Java `null` is `None`), `Result` (an aborting exception is `Err`), `Map` over sequences.
- `Text`: the `java.lang.String` operations the code relies on. These are `startsWith`, `trim` (strip
  characters up to U+0020), `indexOf`, and `split` with its default limit. `split` cuts at leftmost
  non-overlapping matches, drops trailing empty fields, and returns the whole string when there is no match.
- `Numbers`: `Integer.parseInt` (optional sign, decimal digits, 32-bit range) and `Integer.toString`.
- `Lamport`: `LamportClock` as state-transformer functions over a `nat`.
- `WeatherRecord`: the 17-field `WeatherData` record, its field names and defaults. Doubles are opaque bit patterns.
- `Framing`: the "skip to the first empty line, then append every non-empty line" body loop.
  The server's PUT handler and the GET client both use it.
- `AggregationServer`: `ClientHandler.run`, `handleGet` and `handlePut`. Together they form one pure function
  from (request lines, store) to (response lines, new store).
- `ContentServer`: `readFromFile` and the PUT request framing of `main`.
- `GetClient`: the clock bump, request framing, body extraction and `Lamport-Clock` stripping of `GETClient.main`.

Foreign code appears as parameters:

- Gson's `fromJson` returns one of three outcomes: `Threw`, `Null` or `Decoded(record)`.
- Gson's `toJson` of one record is a partial function from records to strings. `None` stands for the exception Gson throws on a NaN or infinite double.
- Gson's `toJson` of the whole store is a total function from stores to strings.
- `Double.parseDouble` is a partial function from strings to opaque doubles.

The model follows the code where the assignment's specification of the system differs from it:

- The server never reads or writes a `Lamport-Clock` header.
- The server has no eviction. `TIMEOUT` and `lastUpdateTime` are declared but unused.
- The request path and version are never checked.
- An empty-string id is accepted. Only a missing id is rejected.
- The PUT body is read to end of stream. `Content-Length` is ignored.
- A connection with no first line dereferences `null` in `run`. Nothing is written and the store is unchanged.
  Such a connection is not a clean close.

`getClock` is the plain field read `GetClock`. Since the model is functional, a read cannot change the clock.

## Model

| member | source | states |
|---|---|---|
| Lamport.Init | WeatherSystem/src/main/java/org/example/LamportClock.java:6-8 | a new clock reads 0 |
| Lamport.GetClock | WeatherSystem/src/main/java/org/example/LamportClock.java:18-20 | `getClock` reads the counter; its properties are stated through Init, Increment, Update and RunAdvances |
| Lamport.Increment | WeatherSystem/src/main/java/org/example/LamportClock.java:10-12 | the clock goes up by exactly one |
| Lamport.Update | WeatherSystem/src/main/java/org/example/LamportClock.java:14-16 | the new value exceeds both the old value and the received one, and is one more than one of them, i.e. max(clock, received) + 1 |
| Lamport.RunAdvances | WeatherSystem/src/main/java/org/example/LamportClock.java:10-20 | over any sequence of calls the clock never decreases, gains at least one per increment/update, and reads leave it unchanged |
| Lamport.IncrementsAdd | WeatherSystem/src/main/java/org/example/LamportClock.java:10-12 | n increments add exactly n |
| Lamport.IncrementLoop | WeatherSystem/src/main/java/org/example/AggregationServerTest.java:68-70 | a loop of n `increment` calls ends n above where it started |
| Lamport.TwoThreadCount | WeatherSystem/src/main/java/org/example/AggregationServerTest.java:65-84 | the two 1000-increment threads, run one after the other on a fresh clock, end at 2000 |
| Lamport.ClockTraces | WeatherSystem/src/main/java/org/example/AggregationServerTest.java:15-28 | fresh clock reads 0 and 1 after an increment; update(5) gives 6, then update(3) gives 7 |
| WeatherRecord.FieldOfKey | WeatherSystem/src/main/java/org/example/ContentServer.java:97-149 | a key selects the field with exactly that name, and a key naming no field selects nothing |
| WeatherRecord.FieldOfName | WeatherSystem/src/main/java/org/example/ContentServer.java:97-149 | every field's own name selects that field (the 17 names are distinct) |
| WeatherRecord.Set | WeatherSystem/src/main/java/org/example/ContentServer.java:98-148 | assigning one field sets it and leaves the other sixteen unchanged |
| WeatherRecord.Empty | WeatherSystem/src/main/java/org/example/WeatherData.java:4-22 | a new record holds null in every string field and 0 in every number field |
| WeatherRecord.RecordExtensionality | WeatherSystem/src/main/java/org/example/WeatherData.java:4-22 | a record is determined by its 17 field values |
| Text.Trim | WeatherSystem/src/main/java/org/example/ContentServer.java:97-99 | `trim` removes exactly the blank (at most U+0020) margins: the result is the infix after the leading blanks, with only blanks after it, and has no blank at either end |
| Text.TrimIdempotent | WeatherSystem/src/main/java/org/example/GETClient.java:65 | trimming an already trimmed string changes nothing |
| Text.TrimIs | WeatherSystem/src/main/java/org/example/ContentServer.java:99 | the trim of s is s[i..j] whenever the margins outside i..j are blank and the text inside has no blank ends |
| Text.StartsWith | WeatherSystem/src/main/java/org/example/AggregationServer.java:82-84 | `startsWith`: the request line begins with the method name; used by `Handle` and stated in its contract and OnlyMethodMatters |
| Text.IndexOf | WeatherSystem/src/main/java/org/example/GETClient.java:65 | returns the leftmost occurrence of the delimiter, or none if there is no occurrence |
| Text.IndexOfChar | WeatherSystem/src/main/java/org/example/ContentServer.java:92 | the first occurrence of a one-character delimiter is the first index holding that character |
| Text.SplitAll | WeatherSystem/src/main/java/org/example/ContentServer.java:92 | the fields between delimiters join back, with the delimiter, into the original string, and no field contains the delimiter |
| Text.DropTrailingEmpty | WeatherSystem/src/main/java/org/example/ContentServer.java:92 | removes exactly the empty fields at the end: a prefix whose last field is non-empty, and everything dropped is empty |
| Text.JavaSplit | WeatherSystem/src/main/java/org/example/ContentServer.java:92 | `split` gives the whole string when the delimiter is absent; otherwise it gives the fields with trailing empties removed |
| Text.AllFieldsEmptyIffRun | WeatherSystem/src/main/java/org/example/GETClient.java:65 | every field of a split is empty exactly when the string is a run of copies of the delimiter |
| Text.SplitHead | WeatherSystem/src/main/java/org/example/GETClient.java:65 | `split(d)` returns an empty array exactly when the text is one or more delimiters in a row; otherwise element 0 is the text before the first delimiter, or the whole text when there is none |
| Text.SplitCharAllEmpty | WeatherSystem/src/main/java/org/example/ContentServer.java:92-94 | splitting on one character leaves a non-empty field exactly when the text has some other character |
| Numbers.NatToString | WeatherSystem/src/main/java/org/example/ContentServer.java:61 | a number prints as its canonical decimal spelling: digits only, no leading zero unless the number is 0, with that decimal value |
| Numbers.CanonicalUnique | WeatherSystem/src/main/java/org/example/ContentServer.java:61 | the canonical spelling is unique: any digit string without a superfluous leading zero is what `NatToString` prints for its value |
| Numbers.IntToString | WeatherSystem/src/main/java/org/example/GETClient.java:43 | `Integer.toString`: a minus sign exactly for negatives, followed by the canonical spelling of the magnitude |
| Numbers.ParseInt | WeatherSystem/src/main/java/org/example/ContentServer.java:137-148 | `parseInt` succeeds exactly on an optional sign followed by one or more decimal digits whose value fits 32 bits, and then yields that value; anything else throws |
| Numbers.ParseIntToString | WeatherSystem/src/main/java/org/example/GETClient.java:43 | every 32-bit int parses back from its printed form |
| Framing.ScanBody | WeatherSystem/src/main/java/org/example/AggregationServer.java:137-148 | the header/body loop with its `isBody` flag; its behaviour is stated by ScanInBody and ExtractBodySpec |
| Framing.ExtractBody | WeatherSystem/src/main/java/org/example/GETClient.java:51-59 | the loop run from the start, in both the server and the client; stated by ExtractBodySpec and BodyAfterHeaders |
| Framing.ScanInBody | WeatherSystem/src/main/java/org/example/AggregationServer.java:137-148 | once the loop is in the body, it keeps every line, and skipping empty lines loses nothing |
| Framing.ExtractBodySpec | WeatherSystem/src/main/java/org/example/AggregationServer.java:132-148 | the body is every line after the first empty line, concatenated; lines before it never appear, and with no empty line the body is "" |
| Framing.BodyAfterHeaders | WeatherSystem/src/main/java/org/example/GETClient.java:51-59 | non-empty header lines, an empty line, then one text line: the body is that text |
| AggregationServer.HandleGet | WeatherSystem/src/main/java/org/example/AggregationServer.java:109-122 | a GET answers 200 with the JSON content type and a blank line, then the serialised store, or exactly `{}` for an empty store |
| AggregationServer.HandlePut | WeatherSystem/src/main/java/org/example/AggregationServer.java:131-172 | 200 exactly when the body decodes to a record with an id, and the store then gets that record under its id. Nothing is merged, other keys are untouched, and the size is kept when the id is present. 400 for null or a missing id; 500 exactly when parsing throws; the store changes only on 200; no key is ever removed; stores keyed by their records' ids stay so |
| AggregationServer.Handle | WeatherSystem/src/main/java/org/example/AggregationServer.java:75-101 | no first line: nothing written, store unchanged. "GET…" goes to GET and leaves the store unchanged; "PUT…" goes to PUT; anything else answers exactly 400 with the store unchanged. No entry is ever removed, and the keyed-by-id invariant is preserved |
| AggregationServer.OnlyMethodMatters | WeatherSystem/src/main/java/org/example/AggregationServer.java:82-85 | two request lines with the same GET/PUT prefix are handled identically, whatever path and version follow |
| AggregationServer.EmptyIdAccepted | WeatherSystem/src/main/java/org/example/AggregationServer.java:158-161 | a record whose id is "" is stored under "" with 200 |
| AggregationServer.ServeKeepsEntries | WeatherSystem/src/main/java/org/example/AggregationServer.java:153-171 | over any sequence of connections no entry disappears, and every entry stays filed under its record's id |
| AggregationServer.Serve | WeatherSystem/src/main/java/org/example/AggregationServer.java:45-48 | connections served one after another against one store; stated by ServeKeepsEntries and OverwriteKeepsOneEntry |
| AggregationServer.OverwriteKeepsOneEntry | WeatherSystem/src/main/java/org/example/AggregationServer.java:158-159 | two PUTs with the same id leave that id mapped to the second record, and the second PUT does not change the entry count |
| ContentServer.FirstField | WeatherSystem/src/main/java/org/example/ContentServer.java:92 | the prefix of the text up to, and excluding, the first colon, or the whole text when there is no colon |
| ContentServer.KeyValue | WeatherSystem/src/main/java/org/example/ContentServer.java:92-99 | the split-and-trim of one line into key and value; characterised by KeyValueSpec, NoColonSkipped, OneColon and SecondColonDiscards |
| ContentServer.FieldsAfterFirstColon | WeatherSystem/src/main/java/org/example/ContentServer.java:92-94 | a line yields at least two fields exactly when something other than colons follows its first colon |
| ContentServer.KeyValueSpec | WeatherSystem/src/main/java/org/example/ContentServer.java:92-99 | a line is skipped when it has no colon, or only colons after the first. Otherwise the key is the trimmed text before the first colon and the value is the trimmed text between the first and second colons |
| ContentServer.NoColonSkipped | WeatherSystem/src/main/java/org/example/ContentServer.java:92-94 | a line without a colon is skipped |
| ContentServer.OneColon | WeatherSystem/src/main/java/org/example/ContentServer.java:92-99 | `key:value` gives the trimmed pair, and `key:` with nothing after it is skipped |
| ContentServer.SecondColonDiscards | WeatherSystem/src/main/java/org/example/ContentServer.java:92-99 | in `key:value:tail`, the tail is discarded and the value may be empty |
| ContentServer.KeyValueAt | WeatherSystem/src/main/java/org/example/ContentServer.java:97-99 | with the first colon at i and a second field present, the pair is the trimmed key and the trimmed first field after the colon |
| ContentServer.Convert | WeatherSystem/src/main/java/org/example/ContentServer.java:110-148 | string fields take the text; int fields succeed exactly when `parseInt` does, with its value; double fields succeed exactly when `parseDouble` does, with its value |
| ContentServer.Classify | WeatherSystem/src/main/java/org/example/ContentServer.java:92-149 | a line assigns a field exactly when it has a key and value and the key is one of the 17 names; unknown keys assign nothing |
| ContentServer.Apply | WeatherSystem/src/main/java/org/example/ContentServer.java:97-149 | one loop pass: no assignment, no change. Otherwise only the named field is set, and the pass aborts exactly on a malformed number |
| ContentServer.ReadAll | WeatherSystem/src/main/java/org/example/ContentServer.java:86-154 | the read loop over classified lines; stated by ReadAllLastWins, ReadAllFailsIff and SkipIgnored |
| ContentServer.ReadRecord | WeatherSystem/src/main/java/org/example/ContentServer.java:82-155 | `readFromFile` on the lines of the file; stated by LastLineWins, ReadFailsIff and IgnoredLine |
| ContentServer.ReadAllLastWins | WeatherSystem/src/main/java/org/example/ContentServer.java:90-150 | on classified lines, each field ends with the last value assigned to it, or its default |
| ContentServer.LastLineWins | WeatherSystem/src/main/java/org/example/ContentServer.java:86-154 | after a successful read, every field holds the value of the last line naming it. A field no line names keeps null or 0 |
| ContentServer.ReadAllFailsIff | WeatherSystem/src/main/java/org/example/ContentServer.java:137-148 | on classified lines, the read aborts exactly when some assignment carries a malformed number |
| ContentServer.ReadFailsIff | WeatherSystem/src/main/java/org/example/ContentServer.java:110-148 | the whole read aborts exactly when some line gives a numeric field text that does not parse |
| ContentServer.SkipIgnored | WeatherSystem/src/main/java/org/example/ContentServer.java:97-149 | an empty assignment can be removed from anywhere without changing the read |
| ContentServer.IgnoredLine | WeatherSystem/src/main/java/org/example/ContentServer.java:92-149 | a skipped line or unknown key can be deleted from anywhere in the file without changing the result |
| ContentServer.PutRequest | WeatherSystem/src/main/java/org/example/ContentServer.java:59-64 | the request is the PUT line, the JSON content type, `Content-Length: ` plus the printed JSON length (which parses back to that length), a blank line, then the JSON |
| ContentServer.PutRequestBody | WeatherSystem/src/main/java/org/example/ContentServer.java:59-64 | the server sees the content server's request as a PUT (not a GET), and its body loop reads back exactly the JSON text |
| ContentServer.Send | WeatherSystem/src/main/java/org/example/ContentServer.java:40-71 | nothing is sent exactly when some line has a bad number or `toJson` throws on the record read; otherwise the record, id or not, is framed by `PutRequest` with its JSON |
| ContentServer.SentRecordIsStored | WeatherSystem/src/main/java/org/example/ContentServer.java:50-64 | the sent request reaches the server's PUT branch with the JSON as body. If Gson reads back the same record, one with an id is stored (200) and one without is refused (400) |
| GetClient.SendRequest | WeatherSystem/src/main/java/org/example/GETClient.java:39-44 | the clock goes up by exactly one before sending. The request is the GET line, then `Lamport-Clock: ` plus the printed new value (which parses back to it), then a blank line |
| GetClient.FreshClientSendsOne | WeatherSystem/src/main/java/org/example/GETClient.java:39-43 | a fresh client sends `Lamport-Clock: 1` |
| GetClient.JsonText | WeatherSystem/src/main/java/org/example/GETClient.java:65 | `split("Lamport-Clock")[0].trim()`, throwing on an empty split; stated by JsonTextSpec |
| GetClient.ReadResponse | WeatherSystem/src/main/java/org/example/GETClient.java:51-65 | the body loop followed by the cut; stated by ClientReadsServerJson and EmptyStoreReadsEmptyObject |
| GetClient.JsonTextSpec | WeatherSystem/src/main/java/org/example/GETClient.java:65 | the JSON text is the trimmed body before the first `Lamport-Clock`, or the whole body trimmed if it has none. It is missing (the client throws) exactly when the body is one or more copies of the marker |
| GetClient.ServerAnswersClientGet | WeatherSystem/src/main/java/org/example/GETClient.java:42-44 | the server routes the client's request to GET and leaves its store unchanged |
| GetClient.ClientReadsServerJson | WeatherSystem/src/main/java/org/example/GETClient.java:51-65 | from a GET response the client reads the server's JSON line, trimmed, if that line has no marker |
| GetClient.EmptyStoreReadsEmptyObject | WeatherSystem/src/main/java/org/example/GETClient.java:51-65 | against an empty store the client reads exactly `{}` |

## Left out

- Sockets, the accept loop, threads, stream setup, port and argument parsing, and opening and closing files are I/O plumbing. Requests and responses are modelled as sequences of lines; files are modelled as their lines.
- Concurrency (`ConcurrentHashMap`, `synchronized`). The store and the clock are sequential values, and connections are served one after another. The two-thread clock test is modelled as two loops run in sequence.
- Gson is a parameter, and no JSON grammar is modelled. The model treats the serialised text as one line; Gson's default compact output has no newlines.
- AggregationServer.HandleGet: a `toJson` failure on a stored NaN or infinite double is not modelled. That failure would leave the response after its blank line.
- `Double.parseDouble` is a parameter, and doubles are opaque 64-bit patterns with `0.0` as all-zero bits.
- Numbers.ParseInt: accepts ASCII digits only. Java's `Character.digit` also accepts other Unicode decimal digits.
- Lamport.Increment: the clock is a `nat`, so Java `int` overflow after 2^31 - 1 steps is not modelled.
- Lamport.Update: `max(clock, received) + 1` is computed without the wrap-around Java gives when `received` is 2^31 - 1.
- ContentServer.PutRequest: the Content-Length is the number of Unicode scalar values, while Java's `length()` counts UTF-16 units. The two differ for characters outside the Basic Multilingual Plane.
- GETClient's `displayWeather` printing, the debug `println`s, and the tests that only exercise `HashMap` or Gson.
- The staleness eviction and server-side Lamport handling of the assignment's specification are not implemented in the code, so they are not modelled.

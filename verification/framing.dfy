/**
 * The body-reading loop that the aggregation server (PUT) and the GET client
 * share: lines are read to end of stream; the first empty line switches to
 * the body, and from then on every non-empty line is appended to the body
 * with no separator.
 */
module Framing {
  import opened Base

  /** All of `lines` glued together, in order, without separators. */
  function Concat(lines: seq<string>): string {
    if |lines| == 0 then "" else lines[0] + Concat(lines[1..])
  }

  /** The index of the first empty line, if any. */
  function FirstEmpty(lines: seq<string>): (r: Option<nat>)
    ensures r.Some? ==> r.value < |lines| && lines[r.value] == ""
    ensures r.Some? ==> forall k :: 0 <= k < r.value ==> lines[k] != ""
    ensures r.None? ==> forall k :: 0 <= k < |lines| ==> lines[k] != ""
  {
    if |lines| == 0 then None
    else if lines[0] == "" then Some(0)
    else match FirstEmpty(lines[1..])
      case None => None
      case Some(k) => Some(k + 1)
  }

  /**
   * The loop itself: `inBody` is the `isBody` flag, and each line is either
   * the separator (sets the flag, appends nothing), body text (appended) or a
   * header (dropped).
   */
  function ScanBody(lines: seq<string>, inBody: bool): string {
    if |lines| == 0 then ""
    else if lines[0] == "" then ScanBody(lines[1..], true)
    else (if inBody then lines[0] else "") + ScanBody(lines[1..], inBody)
  }

  /** The body the loop builds from a fresh start. */
  function ExtractBody(lines: seq<string>): string {
    ScanBody(lines, false)
  }

  /** Inside the body, skipping empty lines changes nothing: everything is kept. */
  lemma {:induction false} ScanInBody(lines: seq<string>)
    ensures ScanBody(lines, true) == Concat(lines)
  {
    if |lines| > 0 {
      ScanInBody(lines[1..]);
    }
  }

  /**
   * The body is everything after the first empty line, concatenated; the
   * lines before it (request or status line and headers) never appear, and
   * without an empty line the body is "".
   */
  lemma {:induction false} ExtractBodySpec(lines: seq<string>)
    ensures ExtractBody(lines) == match FirstEmpty(lines)
      case None => ""
      case Some(k) => Concat(lines[k + 1..])
  {
    if |lines| > 0 {
      if lines[0] == "" {
        ScanInBody(lines[1..]);
      } else {
        ExtractBodySpec(lines[1..]);
        match FirstEmpty(lines[1..])
        case None =>
        case Some(k) =>
          assert lines[1..][k + 1..] == lines[k + 2..];
      }
    }
  }

  /** The first empty line is the one at `k` when every line before it has text. */
  lemma FirstEmptyAt(lines: seq<string>, k: nat)
    requires k < |lines| && lines[k] == ""
    requires forall j :: 0 <= j < k ==> lines[j] != ""
    ensures FirstEmpty(lines) == Some(k)
  {
  }

  /** A body shaped as headers, an empty line and one line of text reads back as that text. */
  lemma BodyAfterHeaders(headers: seq<string>, text: string)
    requires forall k :: 0 <= k < |headers| ==> headers[k] != ""
    ensures ExtractBody(headers + [""] + [text]) == text
  {
    var lines := headers + [""] + [text];
    forall j | 0 <= j < |headers| ensures lines[j] != "" {
      assert lines[j] == headers[j];
    }
    FirstEmptyAt(lines, |headers|);
    ExtractBodySpec(lines);
    assert lines[|headers| + 1..] == [text];
    assert Concat([text]) == text + Concat([text][1..]);
  }
}

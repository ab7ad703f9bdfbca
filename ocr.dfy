/**
 * Reading text out of an image: polling the asynchronous read operation
 * until it leaves the pending states, then flattening the per-page line
 * lists of a successful result into one list of line texts. The service
 * itself is replaced by the finite sequence of results its status
 * endpoint returns, one per poll.
 */
module Ocr {
  import opened Wrappers
  import opened PyStr

  datatype Line = Line(text: string)

  /** One entry of analyze_result.read_results: the lines found on a page. */
  datatype TextResult = TextResult(lines: seq<Line>)

  /** What one call of get_read_result returns: the operation status and,
      once it has succeeded, the analysed pages. */
  datatype ReadResult = ReadResult(status: string, readResults: seq<TextResult>)

  /** The statuses in which polling goes on, compared after lower-casing. */
  predicate IsPending(status: string) {
    Lower(status) == "notstarted" || Lower(status) == "running"
  }

  /** Poll k is the first one whose status is not pending. */
  predicate FirstTerminalAt(polls: seq<ReadResult>, k: nat) {
    && k < |polls|
    && !IsPending(polls[k].status)
    && forall j :: 0 <= j < k ==> IsPending(polls[j].status)
  }

  /** The index of the first poll at or after j that is not pending. */
  function FirstTerminalFrom(polls: seq<ReadResult>, j: nat): (r: Option<nat>)
    ensures r.Some? ==> j <= r.value < |polls| && !IsPending(polls[r.value].status)
    decreases |polls| - j
  {
    if j >= |polls| then None
    else if !IsPending(polls[j].status) then Some(j)
    else FirstTerminalFrom(polls, j + 1)
  }

  function FirstTerminal(polls: seq<ReadResult>): Option<nat> {
    FirstTerminalFrom(polls, 0)
  }

  lemma {:induction false} FirstTerminalFromPending(polls: seq<ReadResult>, j: nat)
    requires j <= |polls|
    ensures forall m :: j <= m < |polls| && (FirstTerminalFrom(polls, j).None? || m < FirstTerminalFrom(polls, j).value) ==>
      IsPending(polls[m].status)
    decreases |polls| - j
  {
    if j < |polls| && IsPending(polls[j].status) {
      FirstTerminalFromPending(polls, j + 1);
    }
  }

  /** FirstTerminal finds exactly the poll that ends the loop, and finds none
      exactly when every observed poll is pending. */
  lemma FirstTerminalSpec(polls: seq<ReadResult>, k: nat)
    ensures FirstTerminal(polls) == Some(k) <==> FirstTerminalAt(polls, k)
    ensures FirstTerminal(polls).None? <==> forall j :: 0 <= j < |polls| ==> IsPending(polls[j].status)
  {
    FirstTerminalFromPending(polls, 0);
  }

  /** The polling loop: reads results in order and stops at the first one
      that is not pending. None means every observed result was pending,
      so the operation would still be polling. */
  method AwaitResult(polls: seq<ReadResult>) returns (k: Option<nat>)
    ensures k == FirstTerminal(polls)
    ensures k.Some? ==> FirstTerminalAt(polls, k.value)
    ensures k.None? ==> forall j :: 0 <= j < |polls| ==> IsPending(polls[j].status)
  {
    var j := 0;
    while j < |polls|
      invariant j <= |polls|
      invariant forall m :: 0 <= m < j ==> IsPending(polls[m].status)
      invariant FirstTerminalFrom(polls, j) == FirstTerminal(polls)
    {
      if !IsPending(polls[j].status) {
        return Some(j);
      }
      j := j + 1;
    }
    return None;
  }

  function LineTexts(lines: seq<Line>): (r: seq<string>)
    ensures |r| == |lines| && forall l :: 0 <= l < |lines| ==> r[l] == lines[l].text
  {
    seq(|lines|, l requires 0 <= l < |lines| => lines[l].text)
  }

  /** The texts of all lines, page by page and line by line within a page. */
  function Flatten(pages: seq<TextResult>): seq<string> {
    if pages == [] then [] else LineTexts(pages[0].lines) + Flatten(pages[1..])
  }

  /** The number of lines on all pages. */
  function LineCount(pages: seq<TextResult>): nat {
    if pages == [] then 0 else |pages[0].lines| + LineCount(pages[1..])
  }

  lemma {:induction false} FlattenAppend(a: seq<TextResult>, b: seq<TextResult>)
    ensures Flatten(a + b) == Flatten(a) + Flatten(b)
    ensures LineCount(a + b) == LineCount(a) + LineCount(b)
  {
    if a == [] {
      assert a + b == b;
    } else {
      assert (a + b)[1..] == a[1..] + b;
      FlattenAppend(a[1..], b);
    }
  }

  lemma {:induction false} FlattenLength(pages: seq<TextResult>)
    ensures |Flatten(pages)| == LineCount(pages)
  {
    if pages != [] {
      FlattenLength(pages[1..]);
    }
  }

  /** Line l of page p sits right after all lines of the earlier pages: the
      flattening keeps page order and, within a page, line order. */
  lemma FlattenAt(pages: seq<TextResult>, p: nat, l: nat)
    requires p < |pages| && l < |pages[p].lines|
    ensures LineCount(pages[..p]) + l < |Flatten(pages)|
    ensures Flatten(pages)[LineCount(pages[..p]) + l] == pages[p].lines[l].text
  {
    assert pages == pages[..p] + ([pages[p]] + pages[p + 1..]);
    FlattenAppend(pages[..p], [pages[p]] + pages[p + 1..]);
    FlattenLength(pages[..p]);
    assert ([pages[p]] + pages[p + 1..])[1..] == pages[p + 1..];
  }

  /** The lines returned for the terminal result: only the exact status
      'succeeded' yields its text; any other terminal status yields none. */
  function ReadLines(result: ReadResult): seq<string> {
    if result.status == "succeeded" then Flatten(result.readResults) else []
  }

  /** The status check after polling is case-sensitive, although the
      polling condition is not: a status 'Succeeded' ends polling but
      returns no lines, whatever pages it carries. */
  lemma SucceededIsCaseSensitive(pages: seq<TextResult>)
    ensures !IsPending("Succeeded")
    ensures ReadLines(ReadResult("Succeeded", pages)) == []
    ensures ReadLines(ReadResult("succeeded", pages)) == Flatten(pages)
  {
    assert Lower("Succeeded") == "succeeded";
  }

  /** The lines extract_text_from_image returns for the observed polls;
      None while still polling. */
  function ExtractedLines(polls: seq<ReadResult>): Option<seq<string>> {
    match FirstTerminal(polls)
    case None => None
    case Some(k) => Some(ReadLines(polls[k]))
  }

  /** Lines come back only from a result whose status is exactly
      'succeeded', and then they are the flattened pages of the first
      terminal result. */
  lemma ExtractedLinesSpec(polls: seq<ReadResult>)
    ensures ExtractedLines(polls).None? <==> forall j :: 0 <= j < |polls| ==> IsPending(polls[j].status)
    ensures ExtractedLines(polls).Some? ==>
      var k := FirstTerminal(polls).value;
      && FirstTerminalAt(polls, k)
      && (polls[k].status == "succeeded" ==> ExtractedLines(polls).value == Flatten(polls[k].readResults))
      && (polls[k].status != "succeeded" ==> ExtractedLines(polls).value == [])
  {
    if FirstTerminal(polls).Some? {
      FirstTerminalSpec(polls, FirstTerminal(polls).value);
    } else {
      FirstTerminalSpec(polls, 0);
    }
  }

  /** extract_text_from_image once the read was submitted: poll, then take
      the lines of the terminal result. None: still polling at the end of
      the observed results. */
  method ExtractTextFromImage(polls: seq<ReadResult>) returns (lines: Option<seq<string>>)
    ensures lines == ExtractedLines(polls)
  {
    var k := AwaitResult(polls);
    if k.None? {
      return None;
    }
    lines := Some(ReadLines(polls[k.value]));
  }
}

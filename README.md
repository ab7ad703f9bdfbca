# aiscanimage: a verified model of the OCR-to-entities pipeline

The application takes an image, either uploaded or given by URL. It has the
Computer Vision service read the text, polling the read operation until it
leaves the pending states. It flattens the recognised pages into lines, drops
blank lines, and sends the rest in batches of five to the Text Analytics
entity service. Each answer is then matched back to a line of its batch:
the code takes `batch[doc_id - i]`, the line at the answer's id minus the
batch start. That is the line sent under that id only when no line before it in its
window was blank, which both callers ensure by dropping blank lines first. The upload route first checks the file name against
the extension allow-list.

This project models those pieces in Dafny and proves what they promise.

- `Upload` (`upload.dfy`) models `allowed_file`.
- `Ocr` (`ocr.dfy`) models the polling loop, the case-sensitive
  `'succeeded'` check and the flattening of pages into lines.
- `Entities` (`entities.dfy`) models `recognize_entities`:
  - the batch loop, with a method whose loop invariants tie it to a
    specification function;
  - the id tagging;
  - the reconciliation of each response;
  - the two exception paths.
- `Pipeline` (`pipeline.dfy`) models the two call sites, with their
  blank-line filter.
- `PyStr` (`pystr.dfy`) holds the pieces of Python's string semantics the
  code relies on:
  - `str.isspace`/`strip`, and `lower` on ASCII;
  - `str(n)`;
  - `int(s)` in base 10, as a scanner over its grammar: optional sign,
    digits with single underscores, and the whitespace `int()` skips
    around them (`IsIntSpace`, narrower than `isspace`).
- `Wrappers` and `Seqs` (`wrappers.dfy`) hold `Option` and two sequence lemmas
  (`AppendAssoc`, `ShiftHead`).

The two remote services become inputs:

- The read operation is the finite sequence of results its status endpoint
  returns, one per poll.
- The entity service is a function from the batch sent to either a failed
  call (`ServiceFailure`, i.e. the call raised) or the documents it
  answered. An answered document carries an error flag, the id as echoed,
  and its entities.

## Model

| member | source | states |
|---|---|---|
| `Upload.AllowedFile` | app.py:25-26 | `allowed_file`: a dot, and the text after the last one, lower-cased, among the allowed extensions; characterised both ways by `Upload.AllowedFileIff` |
| `Upload.Extension` | app.py:26 | `filename.rsplit('.', 1)[1]`, the text after the last dot; `Upload.AllowedFileBySuffix` states what it is for a name `stem + "." + ext` |
| `Upload.LastIndexOf` | app.py:26 | the split point of `rsplit('.', 1)`: None exactly when the name has no dot, otherwise a dot with no dot after it |
| `Upload.AllowedFileBySuffix` | app.py:25-26 | for a name `stem + "." + ext` with a dot-free `ext`, allowed exactly when `ext` lower-cased is png, jpg, jpeg or gif, whatever the stem holds |
| `Upload.AllowedFileIff` | app.py:14 | allowed exactly when the name splits at some dot into a stem and a dot-free extension that lower-cases to one of the four allowed ones |
| `Upload.AllowedUpperCase` | app.py:26 | "a.PNG" is accepted |
| `Upload.AllowedLastExtension` | app.py:26 | "x.tar.gif" is accepted: the last extension decides |
| `Upload.RefusedInnerExtension` | app.py:26 | "x.gif.tar" is refused |
| `Upload.RefusedWithoutDot` | app.py:25-26 | "png" is refused: no dot |
| `Upload.RefusedTrailingDot` | app.py:25-26 | "a." is refused: empty extension |
| `PyStr.IsSpace` | app.py:49 | `str.isspace` on one character (the Unicode whitespace set); `PyStr.StripEmptyIffBlank` ties it to `strip()` |
| `PyStr.Blank` | app.py:49 | a string of whitespace only, the empty one included; `PyStr.StripEmptyIffBlank` shows it is exactly `not s.strip()` |
| `PyStr.Strip` | app.py:49 | `s.strip()`, specified by `PyStr.StripLeading` and `PyStr.StripTrailing` |
| `PyStr.StripLeading` | app.py:49 | the result is a suffix of the input, everything dropped is whitespace, and it does not start with whitespace |
| `PyStr.StripTrailing` | app.py:49 | the result is a prefix of the input, everything dropped is whitespace, and it does not end with whitespace |
| `PyStr.StripEmptyIffBlank` | app.py:103 | `s.strip()` is empty exactly when every character of `s` is whitespace |
| `PyStr.Lower` | app.py:35 | same length, each character lower-cased |
| `PyStr.NatToString` | app.py:49 | `str(n)` for the ids, specified by `PyStr.NatToStringDigits` and `PyStr.ParseNatToString` |
| `PyStr.NatToStringDigits` | app.py:49 | `str(n)` is a non-empty run of decimal digits |
| `PyStr.ParseNatToString` | app.py:60 | `int(str(n)) == n` and `int("-" + str(n)) == -n`: the ids the batcher writes parse back to their index |
| `PyStr.NatToStringInjective` | app.py:49 | distinct indices get distinct ids |
| `PyStr.IsIntSpace` | app.py:60 | the whitespace `int()` skips: `isspace` without the separators U+001C-U+001F |
| `PyStr.ParseInt` | app.py:60 | `int(doc.id)`, with None for the ValueError a malformed id raises (the 4300-digit limit is left out); specified by `PyStr.ParseNatToString`, `PyStr.ParseIgnoresLeadingSpace` and the example lemmas below |
| `PyStr.Scan` | app.py:60 | the scanner behind `PyStr.ParseInt`, one character at a time |
| `PyStr.ParseIgnoresLeadingSpace` | app.py:60 | a leading character that `int()` skips as whitespace never changes what `int()` returns |
| `PyStr.ParsePadded` | app.py:60 | `int(" 7\n") == 7`, and 7 also behind NEL (U+0085) or the ideographic space (U+3000) |
| `PyStr.SeparatorsRefused` | app.py:60 | U+001C and U+001F are whitespace to `isspace`, yet `int()` raises on "\x1c7" and "7\x1f" |
| `PyStr.ParseUnderscore` | app.py:60 | `int("1_0") == 10` |
| `PyStr.ParseSigned` | app.py:60 | `int("-3") == -3`, `int("+3") == 3` |
| `PyStr.ParseRejects` | app.py:60 | `int()` raises on "1__0", "1_", "-", "1 2", "" and "x" |
| `Ocr.IsPending` | app.py:35 | the status lower-cased is notstarted or running; `Ocr.FirstTerminalSpec` uses it to state where polling stops |
| `Ocr.FirstTerminal` | app.py:33-36 | the poll the loop stops at, specified by `Ocr.FirstTerminalSpec` |
| `Ocr.FirstTerminalFrom` | app.py:33-36 | the index it finds is in range and its status is not pending |
| `Ocr.FirstTerminalSpec` | app.py:33-36 | `FirstTerminal` finds poll k exactly when k is the first poll whose lower-cased status is neither notstarted nor running, and finds none exactly when every poll is pending |
| `Ocr.AwaitResult` | app.py:33-37 | the loop stops at the first terminal poll, or at none when all observed polls are pending |
| `Ocr.LineTexts` | app.py:40 | one text per line, in line order |
| `Ocr.Flatten` | app.py:40 | the nested comprehension over pages and lines, specified by `Ocr.FlattenLength`, `Ocr.FlattenAt` and `Ocr.FlattenAppend` |
| `Ocr.FlattenAppend` | app.py:40 | flattening distributes over concatenation of page lists, for texts and line counts alike |
| `Ocr.FlattenLength` | app.py:40 | the flattened list has one entry per line of every page |
| `Ocr.FlattenAt` | app.py:40 | line l of page p lands right after the lines of all earlier pages: page order, then line order |
| `Ocr.SucceededIsCaseSensitive` | app.py:35-39 | "Succeeded" ends polling but yields no lines; "succeeded" yields the flattened pages |
| `Ocr.ReadLines` | app.py:39-42 | the lines of a terminal read: its flattened pages on exact 'succeeded', none otherwise; `Ocr.SucceededIsCaseSensitive` shows the case matters |
| `Ocr.ExtractedLines` | app.py:28-42 | `extract_text_from_image` on the polls, specified by `Ocr.ExtractedLinesSpec` |
| `Ocr.ExtractedLinesSpec` | app.py:28-42 | none while all polls are pending; otherwise the first terminal poll decides: exact "succeeded" yields its flattened pages, any other status yields `[]` |
| `Ocr.ExtractTextFromImage` | app.py:28-42 | the method returns `ExtractedLines` of the polls |
| `Entities.BatchStarts` | app.py:48 | `range(0, len(texts), 5)`, specified by `Entities.BatchStartsShape` |
| `Entities.BatchStartsFrom` | app.py:48 | every start is in `[i, n)` |
| `Entities.BatchStartsShape` | app.py:45-48 | the batch loop runs ceil(n / 5) times, at 0, 5, 10, ... |
| `Entities.Window` | app.py:49 | `texts[i:i+5]`: its length is min(5, n - i) and entry o is `texts[i + o]` |
| `Entities.TagFrom` | app.py:49 | the comprehension over the window, specified by `Entities.TagFromShape` |
| `Entities.MakeBatch` | app.py:49 | the batch at i, specified by `Entities.BatchShape` and `Entities.BatchOfNonBlank` |
| `Entities.TagFromShape` | app.py:49 | each tagged document comes from a non-blank entry at an offset o at or after j and carries the id `str(i + o)`; every non-blank entry is tagged |
| `Entities.BatchShape` | app.py:49-51 | a batch holds at most min(5, n - i) documents; each is a non-blank line t with i <= t < i + 5, t < n, sent as `(str(t), texts[t])`; every non-blank line of the window is sent |
| `Entities.BatchOfNonBlank` | app.py:49 | with no blank line, the batch at i is exactly the documents `str(i)`, ..., `str(min(i + 5, n) - 1)`, in order, each with its own line |
| `Entities.BatchesDistinct` | app.py:48-49 | a non-empty batch differs from the batch of every other start |
| `Entities.Annotations` | app.py:65 | one `{text, category, confidence_score}` per entity, in order, the values copied |
| `Entities.Reconcile` | app.py:55-68 | the response loop as written, specified by `Entities.ReconcileUpToRaise`, `Entities.ReconcileSound` and `Entities.EchoedResponse`; its fault is shown by `Entities.BlankLineMispairs` |
| `Entities.RaisePoint` | app.py:60 | the first document whose id `int()` refuses, or the end of the response; no earlier document raises |
| `Entities.ReconcileUpToRaise` | app.py:53-70 | a response yields, in response order, the results of its accepted documents before the first one that raises, and nothing after it |
| `Entities.KeepAcceptedSound` | app.py:56-66 | every kept result is that of an accepted document; there are at most as many results as documents |
| `Entities.ReconcileSound` | app.py:56-66 | every result comes from a non-errored document before the first raise whose parsed id d has i <= d < i + len(batch); its text is `batch[d - i]`'s and its entities are the document's |
| `Entities.EchoedResponse` | app.py:55-66 | when every answer not flagged as errored carries an id that `int()` reads into `[i, i + len(batch))`, in any order, the response yields one result per such answer |
| `Entities.ReconcileStep` | app.py:55-68 | one step of the response loop: skip an error, stop at a raise, add the result of an accepted document, skip an out-of-range id |
| `Entities.AppendResponse` | app.py:55-68 | the response loop appends exactly `Reconcile` of the response to the results so far |
| `Entities.RecognizeEntities` | app.py:44-72 | the method returns `Recognized(texts, service)`, calls the service with exactly `ServiceCalls(texts)`, and visits the starts `range(0, n, 5)` |
| `Entities.Contribution` | app.py:49-70 | what the batch at i adds: nothing for an empty batch or a failed call, else `Reconcile` of the response; `Entities.BatchFailureIsolated` states its effect |
| `Entities.Recognized` | app.py:44-72 | `recognize_entities` as written, the specification `Entities.RecognizeEntities` is proved against; `Entities.RecognizedSplit` and `Entities.RecognizedAgreesById` state its properties |
| `Entities.ServiceCalls` | app.py:48-54 | the batches the loop hands to the service, specified by `Entities.ServiceCallsShape` |
| `Entities.ServiceCallsShape` | app.py:45-54 | at most ceil(n / 5) calls; each is the non-empty batch of one of the loop's starts and holds one to five documents |
| `Entities.ServiceCallsOfNonBlank` | app.py:48-54 | with no blank line, ceil(n / 5) calls; call k holds min(5, n - 5k) documents, with ids `str(5k + o)` and texts `texts[5k + o]` |
| `Entities.TwelveLines` | app.py:45-54 | twelve non-blank lines make calls of five, five and two documents, from id "0" to id "11" |
| `Entities.RecognizedSplit` | app.py:48 | the results are those of the batches before a start b followed by those of the batches from b on |
| `Entities.BatchFailureIsolated` | app.py:53-70 | a failed call removes exactly that batch's contribution; the results of earlier and later batches are unchanged |
| `Entities.Lookup` | app.py:61-64 | the document it returns is in the batch under the id asked for; None means no document has that id |
| `Entities.LookupFirst` | app.py:61-64 | it returns the first document that has the id |
| `Entities.ReconcileById` | app.py:55-68 | the response loop with each answer paired with the line sent under its id, specified by `Entities.ReconcileByIdPairs`, `Entities.ReconcileByIdComplete` and `Entities.ReconcileByIdCount` |
| `Entities.ReconcileByIdPairs` | app.py:49-66 | with pairing by id, every result carries the text of the non-blank line t whose id the service answered, together with that answer's entities |
| `Entities.ReconcileByIdCount` | app.py:49-66 | the converse of `Entities.ReconcileByIdPairs`: with pairing by id, the number of results is the number of answers before the first raise that are not errored and carry the id of a non-blank line of the window |
| `Entities.ReconcileByIdComplete` | app.py:49-66 | with pairing by id, every answer before the first raise that is not errored and carries the id of a non-blank line t of the window yields the result of line t's text with that answer's entities |
| `Entities.LookupSent` | app.py:49 | id `str(t)` is in the batch at i exactly when line t is a non-blank line of its window |
| `Entities.LookupNonBlank` | app.py:49-64 | with no blank line, id `str(t)` is in the batch at i exactly when i <= t < i + len(batch), at position t - i |
| `Entities.ReconcileAgreesById` | app.py:49-64 | with no blank line, the reconciliation as written equals the pairing by id |
| `Entities.RecognizedById` | app.py:44-72 | `recognize_entities` with pairing by id; `Entities.RecognizedAgreesById` shows it equals the code as written on blank-free input, and `Entities.RecognizedByIdLines` that its results carry non-blank input lines |
| `Entities.RecognizedAgreesById` | app.py:44-72 | with no blank line, `recognize_entities` as written computes the corrected results |
| `Entities.BlankLineMispairs` | app.py:49-64 | for `[" ", "a", "b"]` the code answers id "1" with "b" and drops id "2"; pairing by id gives "a" and "b" |
| `Pipeline.EntitiesOf` | app.py:103-104 | the entity results a page shows: `Entities.RecognizedById` of the non-blank lines, specified by `Pipeline.ResultsNeverBlank` |
| `Pipeline.NonBlankTexts` | app.py:103 | the blank-line filter, here and at app.py:111, specified by `Pipeline.KeepsStripped` and `Pipeline.NonBlankTextsAppend` |
| `Pipeline.KeepsStripped` | app.py:103 | a line is kept exactly when its `strip()` is non-empty |
| `Pipeline.NonBlankTextsSound` | app.py:103 | no kept line is empty or whitespace only, and no more lines come out than went in |
| `Pipeline.NonBlankTextsMembers` | app.py:111 | a text is kept exactly when it is among the lines and is not blank |
| `Pipeline.NonBlankTextsAppend` | app.py:102-103 | the filter distributes over concatenation, so relative order is kept |
| `Pipeline.NonBlankTextsKeepsNonBlank` | app.py:110-111 | lines with no blank among them pass unchanged |
| `Pipeline.NonBlankTextsIdempotent` | app.py:111 | filtering twice is filtering once |
| `Pipeline.ExtractFromUrl` | app.py:108-113 | still polling: no page and no calls; otherwise the results page shows the corrected results (`Pipeline.EntitiesOf`) for the non-blank extracted lines, and the calls are the batches of those lines (none at all when the read did not succeed) |
| `Pipeline.ExtractFromUpload` | app.py:83-115 | a refused name goes back to the form with no call; an exact 'succeeded' shows the corrected results (`Pipeline.EntitiesOf`) for the non-blank lines of its pages; any other terminal status goes back to the form with no call |
| `Entities.RecognizedByIdLines` | app.py:49-66 | every corrected result carries a non-blank line of the input |
| `Pipeline.ResultsNeverBlank` | app.py:102-104 | a results page shows only texts of lines that were read and that are not blank |

## Left out

- Flask routing, request parsing, `render_template` and `redirect`
  (app.py:74-81, app.py:106, app.py:113, app.py:115): a route's outcome is
  reduced to the results page or the way back to the form.
- The request checks at app.py:80-83 and `if image_file` (app.py:85) are not
  modelled: they read the request, which is plumbing.
- Client construction, environment variables, `read`/`read_in_stream` and
  the Operation-Location parsing (app.py:17-23, app.py:29-31, app.py:91-93):
  foreign services. Polling starts from the sequence of results the status
  endpoint returns.
- `time.sleep` (app.py:37, app.py:99) is timing only.
- A read that never leaves the pending states makes the source loop
  forever. Here it is the result `None` (still polling) at the end of the
  observed polls.
- Saving, removing and naming the uploaded file, the upload folder and PIL
  (app.py:86-90, app.py:105, app.py:117-120) are file-system work.
- `print` logging (app.py:57, app.py:68, app.py:70) has no effect on results.
- `confidence_score` is a float. It is a `real` here, copied and never
  computed with.
- Exceptions inside the response loop: only `int()` can raise there, since
  the index `doc_id - i` is proved in range. Any failure of the service call
  is `ServiceFailure`.
- Entities.AppendResponse: Python appends to the one shared `results` list
  in place. The model returns the extended sequence, and the batch loop
  assigns it.
- PyStr.Lower: folds ASCII letters only, where `str.lower` is
  Unicode-wide. Two non-ASCII characters lower-case to something with an
  ASCII letter in it: the Kelvin sign, to "k", and U+0130, to "i" followed
  by the combining dot U+0307. The second never equals an ASCII word,
  because U+0307 is not ASCII. No compared word (png, jpg, jpeg, gif,
  notstarted, running) contains "k", so every comparison the code makes
  comes out the same.
- PyStr.ParseInt: `int()` also accepts non-ASCII decimal digits, and it
  raises ValueError on a string of more than 4300 digits (leading zeros
  included), the default `sys.int_max_str_digits`. The model has neither.
  Ids are written by `str()` and echoed back, so they are ASCII and short.
- Behaviour a reader might expect otherwise; the model follows the code:
  - A failed call removes that batch's results
    (`Entities.BatchFailureIsolated`). These can be fewer than its lines,
    when answers are errored or out of range.
  - Only the exact status `succeeded` yields lines.
  - The upload route goes back to the form on any other terminal status,
    instead of showing an empty result.

## Findings

| source | as written | input that shows it | evidently intended | confidence | as-written member | corrected member |
|---|---|---|---|---|---|---|
| app.py:49-64 | a line is sent under `str(i + j)`, where j is its offset in the window *before* blank lines are dropped, but the answer is looked up at `batch[doc_id - i]` in the batch *after* dropping, and kept only when `doc_id < i + len(batch)` | `recognize_entities([" ", "a", "b"])` with the service answering ids "1" and "2": id "1" gets the text "b", and id "2" is discarded as out of range | each answer is paired with the line sent under its id (`Entities.ReconcileById`), so "1" gets "a" and "2" gets "b"; both routes filter blank lines first, and then the code as written agrees with this (`Entities.RecognizedAgreesById`) | not executed | `Entities.BlankLineMispairs` | `Entities.ReconcileByIdPairs` |

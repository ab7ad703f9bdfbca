/**
 * The two places that chain the pieces together: the upload route, which
 * checks the file name, polls the read of the uploaded image and recognises
 * entities in its lines; and the URL route, which does the same through
 * extract_text_from_image. Both drop the whitespace-only lines before
 * recognition. Pages are reduced to what they show: the entity results, or
 * the way back to the form.
 */
module Pipeline {
  import opened Wrappers
  import opened Seqs
  import opened PyStr
  import opened Upload
  import opened Ocr
  import opened Entities

  /** `[t for t in lines if t.strip()]`; t.strip() is non-empty exactly
      when t is not Blank (PyStr.StripEmptyIffBlank). */
  function NonBlankTexts(lines: seq<string>): seq<string> {
    if lines == [] then []
    else (if !Blank(lines[0]) then [lines[0]] else []) + NonBlankTexts(lines[1..])
  }

  /** The filter keeps a line exactly when its strip() is non-empty. */
  lemma KeepsStripped(line: string)
    ensures NonBlankTexts([line]) == (if Strip(line) != [] then [line] else [])
  {
    StripEmptyIffBlank(line);
    assert [line][1..] == [];
  }

  /** No kept line is empty or whitespace only, and no more lines come out
      than went in. */
  lemma {:induction false} NonBlankTextsSound(lines: seq<string>)
    ensures |NonBlankTexts(lines)| <= |lines|
    ensures AllNonBlank(NonBlankTexts(lines))
  {
    if lines != [] {
      NonBlankTextsSound(lines[1..]);
      var head := if !Blank(lines[0]) then [lines[0]] else [];
      var tail := NonBlankTexts(lines[1..]);
      forall t | 0 <= t < |head + tail|
        ensures !Blank((head + tail)[t])
      {
        if t >= |head| {
          assert (head + tail)[t] == tail[t - |head|];
        }
      }
    }
  }

  /** A line is kept exactly when it occurs among the lines and is not blank. */
  lemma {:induction false} NonBlankTextsMembers(lines: seq<string>, x: string)
    ensures x in NonBlankTexts(lines) <==> x in lines && !Blank(x)
  {
    if lines != [] {
      NonBlankTextsMembers(lines[1..], x);
      assert lines == [lines[0]] + lines[1..];
    }
  }

  /** Filtering commutes with concatenation, so the kept lines stay in their
      original relative order. */
  lemma {:induction false} NonBlankTextsAppend(a: seq<string>, b: seq<string>)
    ensures NonBlankTexts(a + b) == NonBlankTexts(a) + NonBlankTexts(b)
  {
    if a == [] {
      assert a + b == b;
    } else {
      assert (a + b)[1..] == a[1..] + b;
      NonBlankTextsAppend(a[1..], b);
      var head := if !Blank(a[0]) then [a[0]] else [];
      AppendAssoc(head, NonBlankTexts(a[1..]), NonBlankTexts(b));
    }
  }

  /** Lines with no blank among them pass unchanged, so filtering twice is
      filtering once. */
  lemma {:induction false} NonBlankTextsKeepsNonBlank(lines: seq<string>)
    requires AllNonBlank(lines)
    ensures NonBlankTexts(lines) == lines
  {
    if lines != [] {
      NonBlankTextsKeepsNonBlank(lines[1..]);
    }
  }

  lemma NonBlankTextsIdempotent(lines: seq<string>)
    ensures NonBlankTexts(NonBlankTexts(lines)) == NonBlankTexts(lines)
  {
    NonBlankTextsSound(lines);
    NonBlankTextsKeepsNonBlank(NonBlankTexts(lines));
  }

  /** What a route shows: the results page, or a redirect back to the form. */
  datatype Page = ResultsPage(entityResults: seq<EntityResult>) | BackToForm

  /** The entity results for the lines read from an image. */
  function EntitiesOf(lines: seq<string>, service: EntityService): seq<EntityResult> {
    RecognizedById(NonBlankTexts(lines), service)
  }

  /** The URL route: lines from extract_text_from_image, blank ones
      dropped, then recognize_entities; the results page is shown whatever
      the terminal status. None: still polling. */
  method ExtractFromUrl(polls: seq<ReadResult>, service: EntityService)
    returns (page: Option<Page>, calls: seq<Batch>)
    ensures ExtractedLines(polls).None? ==> page.None? && calls == []
    ensures ExtractedLines(polls).Some? ==>
      && page == Some(ResultsPage(EntitiesOf(ExtractedLines(polls).value, service)))
      && calls == ServiceCalls(NonBlankTexts(ExtractedLines(polls).value))
  {
    var lines := ExtractTextFromImage(polls);
    if lines.None? {
      return None, [];
    }
    var texts := NonBlankTexts(lines.value);
    var results;
    ghost var starts;
    results, calls, starts := RecognizeEntities(texts, service);
    NonBlankTextsSound(lines.value);
    RecognizedAgreesById(texts, service);
    page := Some(ResultsPage(results));
  }

  /** The upload route: a file name allowed_file refuses goes back to the
      form; otherwise the read is polled, and only an exact 'succeeded'
      leads to the results page, any other terminal status back to the form. */
  method ExtractFromUpload(filename: string, polls: seq<ReadResult>, service: EntityService)
    returns (page: Option<Page>, calls: seq<Batch>)
    ensures !AllowedFile(filename) ==> page == Some(BackToForm) && calls == []
    ensures AllowedFile(filename) && FirstTerminal(polls).None? ==> page.None? && calls == []
    ensures AllowedFile(filename) && FirstTerminal(polls).Some? ==>
      var result := polls[FirstTerminal(polls).value];
      && (result.status == "succeeded" ==>
            && page == Some(ResultsPage(EntitiesOf(Flatten(result.readResults), service)))
            && calls == ServiceCalls(NonBlankTexts(Flatten(result.readResults))))
      && (result.status != "succeeded" ==> page == Some(BackToForm) && calls == [])
  {
    if !AllowedFile(filename) {
      return Some(BackToForm), [];
    }
    var k := AwaitResult(polls);
    if k.None? {
      return None, [];
    }
    var result := polls[k.value];
    if result.status != "succeeded" {
      return Some(BackToForm), [];
    }
    var texts := NonBlankTexts(Flatten(result.readResults));
    var results;
    ghost var starts;
    results, calls, starts := RecognizeEntities(texts, service);
    NonBlankTextsSound(Flatten(result.readResults));
    RecognizedAgreesById(texts, service);
    page := Some(ResultsPage(results));
  }

  /** The entity results either route shows never hold a blank line's text:
      every result's text is one of the lines read, and not blank. That each
      result pairs its line with the answer under that line's id is
      Entities.ReconcileByIdPairs. */
  lemma ResultsNeverBlank(lines: seq<string>, service: EntityService, k: nat)
    requires k < |EntitiesOf(lines, service)|
    ensures !Blank(EntitiesOf(lines, service)[k].text)
    ensures EntitiesOf(lines, service)[k].text in lines
  {
    var texts := NonBlankTexts(lines);
    NonBlankTextsSound(lines);
    RecognizedByIdLines(texts, service, 0, k);
    NonBlankTextsMembers(lines, EntitiesOf(lines, service)[k].text);
  }
}

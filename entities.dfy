/**
 * recognize_entities: the lines are cut into consecutive batches of at most
 * five, each non-blank line of a batch is sent under an id that encodes its
 * position, and the per-document answers of the entity service are matched
 * back to the batch by that id. The service is a parameter: a function from
 * the batch sent to either a failed call or the documents it answered.
 */
module Entities {
  import opened Wrappers
  import opened PyStr
  import opened Seqs

  /** max_batch_size */
  const MaxBatchSize: nat := 5

  /** One input document of a service call: {"id": ..., "text": ...}. */
  datatype Document = Document(id: string, text: string)

  type Batch = seq<Document>

  /** An entity as the service reports it; the score is carried, never inspected. */
  datatype CategorizedEntity = CategorizedEntity(text: string, category: string, confidenceScore: real)

  /** One per-document answer: an error flag, the echoed id and the entities. */
  datatype DocumentResult = DocumentResult(isError: bool, id: string, entities: seq<CategorizedEntity>)

  /** A service call either raises (ServiceFailure) or returns its documents. */
  datatype ServiceResponse = ServiceFailure | Documents(docs: seq<DocumentResult>)

  type EntityService = Batch -> ServiceResponse

  /** {'text', 'category', 'confidence_score'} */
  datatype EntityAnnotation = EntityAnnotation(text: string, category: string, confidenceScore: real)

  /** {'text', 'entities'}: one line of the output. */
  datatype EntityResult = EntityResult(text: string, entities: seq<EntityAnnotation>)

  function Min(a: int, b: int): int {
    if a <= b then a else b
  }

  predicate AllNonBlank(texts: seq<string>) {
    forall t :: 0 <= t < |texts| ==> !Blank(texts[t])
  }

  // ---------------------------------------------------------------------
  // Batch starts
  // ---------------------------------------------------------------------

  /** range(i, n, max_batch_size) */
  function BatchStartsFrom(n: nat, i: nat): (r: seq<nat>)
    ensures forall k :: 0 <= k < |r| ==> i <= r[k] < n
    decreases n - i
  {
    if i >= n then [] else [i] + BatchStartsFrom(n, i + MaxBatchSize)
  }

  /** range(0, n, max_batch_size): the starts the batch loop visits. */
  function BatchStarts(n: nat): seq<nat> {
    BatchStartsFrom(n, 0)
  }

  lemma {:induction false} BatchStartsFromShape(n: nat, i: nat)
    ensures |BatchStartsFrom(n, i)| == if i >= n then 0 else (n - i + 4) / 5
    ensures forall k :: 0 <= k < |BatchStartsFrom(n, i)| ==> BatchStartsFrom(n, i)[k] == i + 5 * k
    decreases n - i
  {
    if i < n {
      BatchStartsFromShape(n, i + MaxBatchSize);
    }
  }

  /** The loop runs ceil(n / 5) times, at 0, 5, 10, ... */
  lemma BatchStartsShape(n: nat)
    ensures |BatchStarts(n)| == (n + 4) / 5
    ensures forall k :: 0 <= k < |BatchStarts(n)| ==> BatchStarts(n)[k] == 5 * k
  {
    BatchStartsFromShape(n, 0);
  }

  // ---------------------------------------------------------------------
  // Building a batch
  // ---------------------------------------------------------------------

  /** texts[i:i+max_batch_size] */
  function Window(texts: seq<string>, i: nat): (w: seq<string>)
    requires i <= |texts|
    ensures |w| == Min(MaxBatchSize, |texts| - i)
    ensures forall o :: 0 <= o < |w| ==> w[o] == texts[i + o]
  {
    texts[i..Min(i + MaxBatchSize, |texts|)]
  }

  /** The comprehension over enumerate(window) from offset j on: a blank
      entry is dropped (`if text.strip()`, see PyStr.StripEmptyIffBlank),
      any other gets the id str(i + j) of its offset j in the window,
      counted before the dropping. */
  function TagFrom(w: seq<string>, i: nat, j: nat): Batch
    requires j <= |w|
    decreases |w| - j
  {
    if j == |w| then []
    else (if Blank(w[j]) then [] else [Document(NatToString(i + j), w[j])]) + TagFrom(w, i, j + 1)
  }

  /** The batch sent for the window starting at i. */
  function MakeBatch(texts: seq<string>, i: nat): Batch
    requires i <= |texts|
  {
    TagFrom(Window(texts, i), i, 0)
  }

  /** d is the document built for offset o of the window w starting at i. */
  predicate TaggedAt(d: Document, w: seq<string>, i: nat, o: int) {
    0 <= o < |w| && !Blank(w[o]) && d == Document(NatToString(i + o), w[o])
  }

  /** d is the document built for some offset at or after j. */
  ghost predicate TaggedFrom(d: Document, w: seq<string>, i: nat, j: nat) {
    exists o :: j <= o && TaggedAt(d, w, i, o)
  }

  lemma {:induction false} TagFromShape(w: seq<string>, i: nat, j: nat)
    requires j <= |w|
    ensures |TagFrom(w, i, j)| <= |w| - j
    ensures forall k :: 0 <= k < |TagFrom(w, i, j)| ==> TaggedFrom(TagFrom(w, i, j)[k], w, i, j)
    ensures forall o :: j <= o < |w| && !Blank(w[o]) ==> Document(NatToString(i + o), w[o]) in TagFrom(w, i, j)
    decreases |w| - j
  {
    if j < |w| {
      TagFromShape(w, i, j + 1);
      var head: Batch := if Blank(w[j]) then [] else [Document(NatToString(i + j), w[j])];
      var tail := TagFrom(w, i, j + 1);
      assert TagFrom(w, i, j) == head + tail;
      forall k | 0 <= k < |TagFrom(w, i, j)|
        ensures TaggedFrom(TagFrom(w, i, j)[k], w, i, j)
      {
        if k < |head| {
          assert TaggedAt(TagFrom(w, i, j)[k], w, i, j);
        } else {
          assert TagFrom(w, i, j)[k] == tail[k - |head|];
          assert TaggedFrom(tail[k - |head|], w, i, j + 1);
          var o :| j + 1 <= o && TaggedAt(tail[k - |head|], w, i, o);
          assert TaggedAt(TagFrom(w, i, j)[k], w, i, o);
        }
      }
    }
  }

  /** d is the document sent for line t in the batch starting at i. */
  predicate SentAt(d: Document, texts: seq<string>, i: nat, t: int) {
    && i <= t < i + MaxBatchSize
    && t < |texts|
    && !Blank(texts[t])
    && d == Document(NatToString(t), texts[t])
  }

  /** d is the document sent for some line of the batch starting at i. */
  ghost predicate SentFor(d: Document, texts: seq<string>, i: nat) {
    exists t :: SentAt(d, texts, i, t)
  }

  /** Every document of the batch at i is the line texts[t], non-blank, sent
      under the id str(t), for some i <= t < i + 5 with t < n; every
      non-blank line of the window is sent; a batch holds at most five
      documents. */
  lemma BatchShape(texts: seq<string>, i: nat)
    requires i <= |texts|
    ensures |MakeBatch(texts, i)| <= Min(MaxBatchSize, |texts| - i)
    ensures forall k :: 0 <= k < |MakeBatch(texts, i)| ==> SentFor(MakeBatch(texts, i)[k], texts, i)
    ensures forall t :: i <= t < Min(i + MaxBatchSize, |texts|) && !Blank(texts[t]) ==>
      Document(NatToString(t), texts[t]) in MakeBatch(texts, i)
  {
    var w := Window(texts, i);
    TagFromShape(w, i, 0);
    forall k | 0 <= k < |MakeBatch(texts, i)|
      ensures SentFor(MakeBatch(texts, i)[k], texts, i)
    {
      assert TaggedFrom(MakeBatch(texts, i)[k], w, i, 0);
      var o :| 0 <= o && TaggedAt(MakeBatch(texts, i)[k], w, i, o);
      assert SentAt(MakeBatch(texts, i)[k], texts, i, i + o);
    }
    forall t | i <= t < Min(i + MaxBatchSize, |texts|) && !Blank(texts[t])
      ensures Document(NatToString(t), texts[t]) in MakeBatch(texts, i)
    {
      assert w[t - i] == texts[t];
    }
  }

  lemma {:induction false} TagFromNonBlank(w: seq<string>, i: nat, j: nat)
    requires j <= |w|
    requires forall o :: j <= o < |w| ==> !Blank(w[o])
    ensures |TagFrom(w, i, j)| == |w| - j
    ensures forall k :: 0 <= k < |w| - j ==> TagFrom(w, i, j)[k] == Document(NatToString(i + j + k), w[j + k])
    decreases |w| - j
  {
    if j < |w| {
      TagFromNonBlank(w, i, j + 1);
      var tail := TagFrom(w, i, j + 1);
      assert TagFrom(w, i, j) == [Document(NatToString(i + j), w[j])] + tail;
      forall k | 0 < k < |w| - j
        ensures TagFrom(w, i, j)[k] == Document(NatToString(i + j + k), w[j + k])
      {
        assert TagFrom(w, i, j)[k] == tail[k - 1];
        assert i + (j + 1) + (k - 1) == i + j + k;
      }
    }
  }

  /** With no blank text, the batch at i is exactly the documents
      str(i), ..., str(min(i + 5, n) - 1), in order, each with its own text. */
  lemma BatchOfNonBlank(texts: seq<string>, i: nat)
    requires i <= |texts| && AllNonBlank(texts)
    ensures |MakeBatch(texts, i)| == Min(MaxBatchSize, |texts| - i)
    ensures forall k :: 0 <= k < |MakeBatch(texts, i)| ==>
      MakeBatch(texts, i)[k] == Document(NatToString(i + k), texts[i + k])
  {
    var w := Window(texts, i);
    TagFromNonBlank(w, i, 0);
  }

  /** Distinct batch starts are at least a batch apart. */
  lemma StartsApart(i: nat, b: nat)
    requires i % MaxBatchSize == 0 && b % MaxBatchSize == 0 && i != b
    ensures i + MaxBatchSize <= b || b + MaxBatchSize <= i
  {
    assert i == MaxBatchSize * (i / MaxBatchSize) && b == MaxBatchSize * (b / MaxBatchSize);
  }

  lemma NextStart(i: nat)
    requires i % MaxBatchSize == 0
    ensures (i + MaxBatchSize) % MaxBatchSize == 0
  {
  }

  /** A non-empty batch starting at i is never equal to the batch at another
      start b: its ids parse into [i, i + 5), which contains no other start. */
  lemma BatchesDistinct(texts: seq<string>, i: nat, b: nat)
    requires i < |texts| && b < |texts| && i % MaxBatchSize == 0 && b % MaxBatchSize == 0 && i != b
    requires MakeBatch(texts, i) != []
    ensures MakeBatch(texts, i) != MakeBatch(texts, b)
  {
    StartsApart(i, b);
    if MakeBatch(texts, i) == MakeBatch(texts, b) {
      BatchShape(texts, i);
      BatchShape(texts, b);
      var d := MakeBatch(texts, i)[0];
      assert SentFor(d, texts, i) && SentFor(d, texts, b);
      var t :| SentAt(d, texts, i, t);
      var u :| SentAt(d, texts, b, u);
      NatToStringInjective(t, u);
      assert false;
    }
  }

  // ---------------------------------------------------------------------
  // Reconciling one response
  // ---------------------------------------------------------------------

  /** The per-entity dictionary comprehension. */
  function Annotations(es: seq<CategorizedEntity>): (r: seq<EntityAnnotation>)
    ensures |r| == |es|
    ensures forall e :: 0 <= e < |es| ==>
      r[e] == EntityAnnotation(es[e].text, es[e].category, es[e].confidenceScore)
  {
    seq(|es|, e requires 0 <= e < |es| => EntityAnnotation(es[e].text, es[e].category, es[e].confidenceScore))
  }

  /** The `for doc in response` loop for the batch starting at i: errored
      documents are skipped; an id int() refuses raises, which abandons the
      rest of the response; an id outside [i, i + len(batch)) is skipped;
      otherwise the text is taken from the batch at id - i. */
  function Reconcile(docs: seq<DocumentResult>, i: nat, batch: Batch): seq<EntityResult> {
    if docs == [] then []
    else if docs[0].isError then Reconcile(docs[1..], i, batch)
    else
      match ParseInt(docs[0].id)
      case None => []
      case Some(docId) =>
        (if i <= docId < i + |batch|
         then [EntityResult(batch[docId - i].text, Annotations(docs[0].entities))]
         else [])
        + Reconcile(docs[1..], i, batch)
  }

  /** A document whose id int() refuses: processing it raises. */
  predicate Raises(doc: DocumentResult) {
    !doc.isError && ParseInt(doc.id).None?
  }

  /** A document that adds a result: not errored, id parses into range. */
  predicate Accepted(doc: DocumentResult, i: nat, batch: Batch) {
    && !doc.isError
    && ParseInt(doc.id).Some?
    && i <= ParseInt(doc.id).value < i + |batch|
  }

  /** The result an accepted document adds; its index is always in the batch. */
  function ResultFor(doc: DocumentResult, i: nat, batch: Batch): EntityResult
    requires Accepted(doc, i, batch)
  {
    EntityResult(batch[ParseInt(doc.id).value - i].text, Annotations(doc.entities))
  }

  /** The index of the first document that raises, or |docs| if none does. */
  function RaisePoint(docs: seq<DocumentResult>): (k: nat)
    ensures k <= |docs|
    ensures forall m :: 0 <= m < k ==> !Raises(docs[m])
    ensures k < |docs| ==> Raises(docs[k])
  {
    if docs == [] then 0
    else if Raises(docs[0]) then 0
    else 1 + RaisePoint(docs[1..])
  }

  /** The accepted documents' results, in response order. */
  function KeepAccepted(docs: seq<DocumentResult>, i: nat, batch: Batch): seq<EntityResult> {
    if docs == [] then []
    else
      (if Accepted(docs[0], i, batch) then [ResultFor(docs[0], i, batch)] else [])
      + KeepAccepted(docs[1..], i, batch)
  }

  lemma {:induction false} KeepAcceptedAppend(a: seq<DocumentResult>, b: seq<DocumentResult>, i: nat, batch: Batch)
    ensures KeepAccepted(a + b, i, batch) == KeepAccepted(a, i, batch) + KeepAccepted(b, i, batch)
  {
    if a == [] {
      assert a + b == b;
    } else {
      assert (a + b)[1..] == a[1..] + b;
      KeepAcceptedAppend(a[1..], b, i, batch);
      var head := if Accepted(a[0], i, batch) then [ResultFor(a[0], i, batch)] else [];
      assert KeepAccepted(a + b, i, batch) == head + KeepAccepted(a[1..] + b, i, batch);
      AppendAssoc(head, KeepAccepted(a[1..], i, batch), KeepAccepted(b, i, batch));
    }
  }

  /** A response yields the results of its accepted documents, in response
      order, up to the first document that raises; nothing after it. */
  lemma {:induction false} ReconcileUpToRaise(docs: seq<DocumentResult>, i: nat, batch: Batch)
    ensures Reconcile(docs, i, batch) == KeepAccepted(docs[..RaisePoint(docs)], i, batch)
  {
    if docs != [] {
      if !Raises(docs[0]) {
        ReconcileUpToRaise(docs[1..], i, batch);
        assert docs[..RaisePoint(docs)][1..] == docs[1..][..RaisePoint(docs[1..])];
      }
    }
  }

  /** r is the result of an accepted document among docs[..bound]. */
  ghost predicate ResultOfSome(r: EntityResult, docs: seq<DocumentResult>, bound: nat, i: nat, batch: Batch) {
    exists m :: 0 <= m < bound && m < |docs| && Accepted(docs[m], i, batch) && r == ResultFor(docs[m], i, batch)
  }

  lemma {:induction false} KeepAcceptedSound(docs: seq<DocumentResult>, i: nat, batch: Batch)
    ensures |KeepAccepted(docs, i, batch)| <= |docs|
    ensures forall k :: 0 <= k < |KeepAccepted(docs, i, batch)| ==>
      ResultOfSome(KeepAccepted(docs, i, batch)[k], docs, |docs|, i, batch)
  {
    if docs != [] {
      KeepAcceptedSound(docs[1..], i, batch);
      var head := if Accepted(docs[0], i, batch) then [ResultFor(docs[0], i, batch)] else [];
      var tail := KeepAccepted(docs[1..], i, batch);
      forall k | 0 <= k < |KeepAccepted(docs, i, batch)|
        ensures ResultOfSome(KeepAccepted(docs, i, batch)[k], docs, |docs|, i, batch)
      {
        if k < |head| {
          assert 0 < |docs| && Accepted(docs[0], i, batch) && KeepAccepted(docs, i, batch)[k] == ResultFor(docs[0], i, batch);
        } else {
          assert KeepAccepted(docs, i, batch)[k] == tail[k - |head|];
          assert ResultOfSome(tail[k - |head|], docs[1..], |docs[1..]|, i, batch);
          var m :| 0 <= m < |docs[1..]| && Accepted(docs[1..][m], i, batch)
            && tail[k - |head|] == ResultFor(docs[1..][m], i, batch);
          assert docs[1..][m] == docs[m + 1];
          assert m + 1 < |docs| && Accepted(docs[m + 1], i, batch) && KeepAccepted(docs, i, batch)[k] == ResultFor(docs[m + 1], i, batch);
        }
      }
    }
  }

  /** Every result of a response comes from a non-errored document, before
      the first one that raises, whose parsed id d has i <= d < i + len(batch);
      its text is the batch entry at d - i and its entities are the
      document's, one for one. */
  lemma ReconcileSound(docs: seq<DocumentResult>, i: nat, batch: Batch)
    ensures |Reconcile(docs, i, batch)| <= |docs|
    ensures forall k :: 0 <= k < |Reconcile(docs, i, batch)| ==>
      ResultOfSome(Reconcile(docs, i, batch)[k], docs, RaisePoint(docs), i, batch)
  {
    var p := RaisePoint(docs);
    ReconcileUpToRaise(docs, i, batch);
    KeepAcceptedSound(docs[..p], i, batch);
    forall k | 0 <= k < |Reconcile(docs, i, batch)|
      ensures ResultOfSome(Reconcile(docs, i, batch)[k], docs, p, i, batch)
    {
      assert ResultOfSome(KeepAccepted(docs[..p], i, batch)[k], docs[..p], |docs[..p]|, i, batch);
      var m :| 0 <= m < |docs[..p]| && Accepted(docs[..p][m], i, batch)
        && KeepAccepted(docs[..p], i, batch)[k] == ResultFor(docs[..p][m], i, batch);
      assert docs[..p][m] == docs[m];
      assert m < p && m < |docs| && Accepted(docs[m], i, batch) && Reconcile(docs, i, batch)[k] == ResultFor(docs[m], i, batch);
    }
  }

  /** The number of documents flagged as errored. */
  function ErrorCount(docs: seq<DocumentResult>): nat {
    if docs == [] then 0 else (if docs[0].isError then 1 else 0) + ErrorCount(docs[1..])
  }

  /** Every answer not flagged as errored carries an id int() reads as a
      number in [i, i + len(batch)). */
  predicate IdsInRange(docs: seq<DocumentResult>, i: nat, batch: Batch) {
    forall k :: 0 <= k < |docs| && !docs[k].isError ==>
      ParseInt(docs[k].id).Some? && i <= ParseInt(docs[k].id).value < i + |batch|
  }

  lemma {:induction false} EchoedFrom(docs: seq<DocumentResult>, i: nat, batch: Batch, m: nat)
    requires m <= |docs|
    requires IdsInRange(docs, i, batch)
    ensures |Reconcile(docs[m..], i, batch)| == |docs| - m - ErrorCount(docs[m..])
    decreases |docs| - m
  {
    if m < |docs| {
      EchoedFrom(docs, i, batch, m + 1);
      assert docs[m..][1..] == docs[m + 1..];
      assert docs[m..][0] == docs[m];
    }
  }

  /** When every answer not flagged as errored comes back under an id in the
      batch's range, in whatever order and however often, the response yields
      one result per such answer: a batch of five with one error yields four. */
  lemma EchoedResponse(docs: seq<DocumentResult>, i: nat, batch: Batch)
    requires IdsInRange(docs, i, batch)
    ensures |Reconcile(docs, i, batch)| == |docs| - ErrorCount(docs)
  {
    EchoedFrom(docs, i, batch, 0);
    assert docs[0..] == docs;
  }

  // ---------------------------------------------------------------------
  // The whole recognition, as written
  // ---------------------------------------------------------------------

  /** What the batch starting at i adds to the results: nothing when it has
      no non-blank text (no call is made) or when the call raises. */
  function Contribution(texts: seq<string>, service: EntityService, i: nat): seq<EntityResult>
    requires i <= |texts|
  {
    var batch := MakeBatch(texts, i);
    if batch == [] then []
    else match service(batch)
      case ServiceFailure => []
      case Documents(docs) => Reconcile(docs, i, batch)
  }

  /** The results of the batches starting at i, i + 5, ... below n, in batch order. */
  function RecognizedFrom(texts: seq<string>, service: EntityService, i: nat): seq<EntityResult>
    decreases |texts| - i
  {
    if i >= |texts| then []
    else Contribution(texts, service, i) + RecognizedFrom(texts, service, i + MaxBatchSize)
  }

  function Recognized(texts: seq<string>, service: EntityService): seq<EntityResult> {
    RecognizedFrom(texts, service, 0)
  }

  /** The results of the batches starting in [i, b). */
  function RecognizedBetween(texts: seq<string>, service: EntityService, i: nat, b: nat): seq<EntityResult>
    decreases |texts| - i
  {
    if i >= |texts| || i >= b then []
    else Contribution(texts, service, i) + RecognizedBetween(texts, service, i + MaxBatchSize, b)
  }

  /** The batches handed to the service from start i on, in order. */
  function CallsFrom(texts: seq<string>, i: nat): seq<Batch>
    decreases |texts| - i
  {
    if i >= |texts| then []
    else (if MakeBatch(texts, i) == [] then [] else [MakeBatch(texts, i)]) + CallsFrom(texts, i + MaxBatchSize)
  }

  function ServiceCalls(texts: seq<string>): seq<Batch> {
    CallsFrom(texts, 0)
  }

  /** recognize_entities. `calls` lists the batches handed to the service,
      in order; `starts` the values the batch loop's index takes. */
  method RecognizeEntities(texts: seq<string>, service: EntityService)
    returns (results: seq<EntityResult>, calls: seq<Batch>, ghost starts: seq<nat>)
    ensures results == Recognized(texts, service)
    ensures calls == ServiceCalls(texts)
    ensures starts == BatchStarts(|texts|)
  {
    results, calls, starts := [], [], [];
    var i := 0;
    while i < |texts|
      invariant results + RecognizedFrom(texts, service, i) == Recognized(texts, service)
      invariant calls + CallsFrom(texts, i) == ServiceCalls(texts)
      invariant starts + BatchStartsFrom(|texts|, i) == BatchStarts(|texts|)
      decreases |texts| - i
    {
      ghost var resultsBefore, callsBefore, startsBefore := results, calls, starts;
      starts := starts + [i];
      var batch := MakeBatch(texts, i);
      ghost var sent: seq<Batch> := [];
      ghost var added: seq<EntityResult> := [];
      if batch != [] {
        calls := calls + [batch];
        sent := [batch];
        var response := service(batch);
        if response.Documents? {
          results := AppendResponse(results, response.docs, i, batch);
          added := Reconcile(response.docs, i, batch);
        } else {
          assert results == resultsBefore + added;
        }
      } else {
        assert results == resultsBefore + added;
        assert calls == callsBefore + sent;
      }
      RecognizedFromStep(texts, service, i, added);
      ShiftHead(resultsBefore, added, RecognizedFrom(texts, service, i + MaxBatchSize), Recognized(texts, service));
      CallsFromStep(texts, i, sent);
      ShiftHead(callsBefore, sent, CallsFrom(texts, i + MaxBatchSize), ServiceCalls(texts));
      ShiftHead(startsBefore, [i], BatchStartsFrom(|texts|, i + MaxBatchSize), BatchStarts(|texts|));
      i := i + MaxBatchSize;
    }
  }

  /** One step of the batch loop's results: the batch at i adds its
      contribution in front of those of the later batches. */
  lemma RecognizedFromStep(texts: seq<string>, service: EntityService, i: nat, added: seq<EntityResult>)
    requires i < |texts|
    requires added == (if MakeBatch(texts, i) != [] && service(MakeBatch(texts, i)).Documents?
                       then Reconcile(service(MakeBatch(texts, i)).docs, i, MakeBatch(texts, i)) else [])
    ensures RecognizedFrom(texts, service, i) == added + RecognizedFrom(texts, service, i + MaxBatchSize)
  {
  }

  /** One step of the batch loop's calls: a non-empty batch is one call. */
  lemma CallsFromStep(texts: seq<string>, i: nat, sent: seq<Batch>)
    requires i < |texts|
    requires sent == (if MakeBatch(texts, i) != [] then [MakeBatch(texts, i)] else [])
    ensures CallsFrom(texts, i) == sent + CallsFrom(texts, i + MaxBatchSize)
  {
  }

  /** The `for doc in response` loop of the batch starting at i, appending
      to results; a ValueError from int() ends the loop, keeping what was
      appended before it. */
  method AppendResponse(results: seq<EntityResult>, docs: seq<DocumentResult>, i: nat, batch: Batch)
    returns (extended: seq<EntityResult>)
    ensures extended == results + Reconcile(docs, i, batch)
  {
    extended := results;
    var k := 0;
    while k < |docs|
      invariant k <= |docs|
      invariant extended + Reconcile(docs[k..], i, batch) == results + Reconcile(docs, i, batch)
    {
      var doc := docs[k];
      ReconcileStep(docs, k, i, batch);
      if !doc.isError {
        var parsed := ParseInt(doc.id);
        if parsed.None? {
          break;
        }
        var docId := parsed.value;
        if i <= docId < i + |batch| {
          var r := EntityResult(batch[docId - i].text, Annotations(doc.entities));
          AppendAssoc(extended, [r], Reconcile(docs[k + 1..], i, batch));
          extended := extended + [r];
        }
      }
      k := k + 1;
    }
    assert docs[0..] == docs;
  }

  /** One step of the response loop, read off the definition of Reconcile. */
  lemma ReconcileStep(docs: seq<DocumentResult>, k: nat, i: nat, batch: Batch)
    requires k < |docs|
    ensures docs[k].isError ==> Reconcile(docs[k..], i, batch) == Reconcile(docs[k + 1..], i, batch)
    ensures Raises(docs[k]) ==> Reconcile(docs[k..], i, batch) == []
    ensures Accepted(docs[k], i, batch) ==>
      Reconcile(docs[k..], i, batch) == [ResultFor(docs[k], i, batch)] + Reconcile(docs[k + 1..], i, batch)
    ensures !docs[k].isError && !Raises(docs[k]) && !Accepted(docs[k], i, batch) ==>
      Reconcile(docs[k..], i, batch) == Reconcile(docs[k + 1..], i, batch)
  {
    assert docs[k..][1..] == docs[k + 1..];
  }

  // ---------------------------------------------------------------------
  // Properties of the service calls
  // ---------------------------------------------------------------------

  /** b is the batch of one of the starts from i on. */
  ghost predicate BatchOfSomeStart(b: Batch, texts: seq<string>, i: nat) {
    exists s :: s in BatchStartsFrom(|texts|, i) && b == MakeBatch(texts, s)
  }

  lemma BatchOfOwnStart(texts: seq<string>, i: nat)
    requires i < |texts|
    ensures BatchOfSomeStart(MakeBatch(texts, i), texts, i)
  {
    assert i in BatchStartsFrom(|texts|, i);
  }

  lemma BatchOfLaterStart(b: Batch, texts: seq<string>, i: nat)
    requires i < |texts| && BatchOfSomeStart(b, texts, i + MaxBatchSize)
    ensures BatchOfSomeStart(b, texts, i)
  {
    var s :| s in BatchStartsFrom(|texts|, i + MaxBatchSize) && b == MakeBatch(texts, s);
    assert BatchStartsFrom(|texts|, i) == [i] + BatchStartsFrom(|texts|, i + MaxBatchSize);
  }

  lemma {:induction false} CallsFromShape(texts: seq<string>, i: nat)
    ensures |CallsFrom(texts, i)| <= |BatchStartsFrom(|texts|, i)|
    ensures forall k :: 0 <= k < |CallsFrom(texts, i)| ==>
      CallsFrom(texts, i)[k] != [] && BatchOfSomeStart(CallsFrom(texts, i)[k], texts, i)
    decreases |texts| - i
  {
    if i < |texts| {
      CallsFromShape(texts, i + MaxBatchSize);
      CallsFromStep(texts, i, if MakeBatch(texts, i) == [] then [] else [MakeBatch(texts, i)]);
    }
    forall k | 0 <= k < |CallsFrom(texts, i)|
      ensures CallsFrom(texts, i)[k] != [] && BatchOfSomeStart(CallsFrom(texts, i)[k], texts, i)
    {
      CallAt(texts, i, k);
    }
  }

  /** Call k from start i on is the non-empty batch of one of those starts. */
  lemma {:induction false} CallAt(texts: seq<string>, i: nat, k: nat)
    requires k < |CallsFrom(texts, i)|
    ensures CallsFrom(texts, i)[k] != [] && BatchOfSomeStart(CallsFrom(texts, i)[k], texts, i)
    decreases |texts| - i
  {
    var batch := MakeBatch(texts, i);
    var tail := CallsFrom(texts, i + MaxBatchSize);
    if batch == [] {
      CallsFromStep(texts, i, []);
      assert CallsFrom(texts, i) == tail;
      CallAt(texts, i + MaxBatchSize, k);
      BatchOfLaterStart(tail[k], texts, i);
    } else {
      CallsFromStep(texts, i, [batch]);
      if k == 0 {
        BatchOfOwnStart(texts, i);
      } else {
        assert CallsFrom(texts, i)[k] == tail[k - 1];
        CallAt(texts, i + MaxBatchSize, k - 1);
        BatchOfLaterStart(tail[k - 1], texts, i);
      }
    }
  }

  /** Every call is the non-empty batch of one of the loop's starts, so it
      holds one to five documents, and there are at most ceil(n / 5) calls. */
  lemma ServiceCallsShape(texts: seq<string>)
    ensures |ServiceCalls(texts)| <= (|texts| + 4) / 5
    ensures forall k :: 0 <= k < |ServiceCalls(texts)| ==>
      && 1 <= |ServiceCalls(texts)[k]| <= MaxBatchSize
      && BatchOfSomeStart(ServiceCalls(texts)[k], texts, 0)
  {
    CallsFromShape(texts, 0);
    BatchStartsShape(|texts|);
    forall k | 0 <= k < |ServiceCalls(texts)|
      ensures 1 <= |ServiceCalls(texts)[k]| <= MaxBatchSize
    {
      assert BatchOfSomeStart(ServiceCalls(texts)[k], texts, 0);
      var s :| s in BatchStarts(|texts|) && ServiceCalls(texts)[k] == MakeBatch(texts, s);
      BatchShape(texts, s);
    }
  }

  lemma {:induction false} CallsFromNonBlank(texts: seq<string>, i: nat)
    requires AllNonBlank(texts)
    ensures |CallsFrom(texts, i)| == |BatchStartsFrom(|texts|, i)|
    ensures forall k :: 0 <= k < |CallsFrom(texts, i)| ==>
      CallsFrom(texts, i)[k] == MakeBatch(texts, BatchStartsFrom(|texts|, i)[k])
    decreases |texts| - i
  {
    if i < |texts| {
      CallsFromNonBlank(texts, i + MaxBatchSize);
      BatchOfNonBlank(texts, i);
      var tail := CallsFrom(texts, i + MaxBatchSize);
      var starts := BatchStartsFrom(|texts|, i + MaxBatchSize);
      assert CallsFrom(texts, i) == [MakeBatch(texts, i)] + tail;
      assert BatchStartsFrom(|texts|, i) == [i] + starts;
      forall k | 0 < k < |CallsFrom(texts, i)|
        ensures CallsFrom(texts, i)[k] == MakeBatch(texts, BatchStartsFrom(|texts|, i)[k])
      {
        assert CallsFrom(texts, i)[k] == tail[k - 1];
        assert BatchStartsFrom(|texts|, i)[k] == starts[k - 1];
      }
    }
  }

  /** With no blank text there is one call per start: call k is the batch
      of the documents str(5k), ..., str(min(5k + 5, n) - 1) with their texts. */
  lemma ServiceCallsOfNonBlank(texts: seq<string>)
    requires AllNonBlank(texts)
    ensures |ServiceCalls(texts)| == (|texts| + 4) / 5
    ensures forall k :: 0 <= k < |ServiceCalls(texts)| ==>
      && |ServiceCalls(texts)[k]| == Min(MaxBatchSize, |texts| - 5 * k)
      && forall o :: 0 <= o < |ServiceCalls(texts)[k]| ==>
           ServiceCalls(texts)[k][o] == Document(NatToString(5 * k + o), texts[5 * k + o])
  {
    CallsFromNonBlank(texts, 0);
    BatchStartsShape(|texts|);
    forall k | 0 <= k < |ServiceCalls(texts)|
      ensures && |ServiceCalls(texts)[k]| == Min(MaxBatchSize, |texts| - 5 * k)
              && forall o :: 0 <= o < |ServiceCalls(texts)[k]| ==>
                   ServiceCalls(texts)[k][o] == Document(NatToString(5 * k + o), texts[5 * k + o])
    {
      BatchOfNonBlank(texts, 5 * k);
    }
  }

  /** Twelve non-blank lines make three calls of five, five and two
      documents, the last one ending with id "11". */
  lemma TwelveLines(texts: seq<string>)
    requires |texts| == 12 && AllNonBlank(texts)
    ensures |ServiceCalls(texts)| == 3
    ensures |ServiceCalls(texts)[0]| == 5 && |ServiceCalls(texts)[1]| == 5 && |ServiceCalls(texts)[2]| == 2
    ensures ServiceCalls(texts)[0][0] == Document("0", texts[0])
    ensures ServiceCalls(texts)[2][1] == Document("11", texts[11])
  {
    ServiceCallsOfNonBlank(texts);
    assert NatToString(0) == "0";
    assert NatToString(11) == "11";
  }

  // ---------------------------------------------------------------------
  // Batches are independent
  // ---------------------------------------------------------------------

  lemma {:induction false} RecognizedSplit(texts: seq<string>, service: EntityService, i: nat, b: nat)
    requires i <= b && (b - i) % MaxBatchSize == 0
    ensures RecognizedFrom(texts, service, i) == RecognizedBetween(texts, service, i, b) + RecognizedFrom(texts, service, b)
    decreases b - i
  {
    if i < b {
      assert i + MaxBatchSize <= b && (b - (i + MaxBatchSize)) % MaxBatchSize == 0;
      RecognizedSplit(texts, service, i + MaxBatchSize, b);
      if i < |texts| {
        var c := Contribution(texts, service, i);
        AppendAssoc(c, RecognizedBetween(texts, service, i + MaxBatchSize, b), RecognizedFrom(texts, service, b));
      }
    } else {
      assert RecognizedBetween(texts, service, i, b) == [];
    }
  }

  /** The two services answer every batch alike, except possibly `excluded`. */
  ghost predicate AgreeExcept(s1: EntityService, s2: EntityService, excluded: Batch) {
    forall batch :: batch != excluded ==> s1(batch) == s2(batch)
  }

  lemma ContributionAgrees(texts: seq<string>, s1: EntityService, s2: EntityService, b: nat, i: nat)
    requires b < |texts| && i < |texts| && b % MaxBatchSize == 0 && i % MaxBatchSize == 0 && i != b
    requires AgreeExcept(s1, s2, MakeBatch(texts, b))
    ensures Contribution(texts, s1, i) == Contribution(texts, s2, i)
  {
    if MakeBatch(texts, i) != [] {
      BatchesDistinct(texts, i, b);
    }
  }

  lemma {:induction false} BetweenAgrees(texts: seq<string>, s1: EntityService, s2: EntityService, b: nat, i: nat)
    requires b < |texts| && b % MaxBatchSize == 0 && i % MaxBatchSize == 0
    requires AgreeExcept(s1, s2, MakeBatch(texts, b))
    ensures RecognizedBetween(texts, s1, i, b) == RecognizedBetween(texts, s2, i, b)
    decreases |texts| - i
  {
    if i < |texts| && i < b {
      ContributionAgrees(texts, s1, s2, b, i);
      NextStart(i);
      BetweenAgrees(texts, s1, s2, b, i + MaxBatchSize);
    }
  }

  lemma {:induction false} FromAgrees(texts: seq<string>, s1: EntityService, s2: EntityService, b: nat, i: nat)
    requires b < |texts| && b % MaxBatchSize == 0 && i % MaxBatchSize == 0 && b < i
    requires AgreeExcept(s1, s2, MakeBatch(texts, b))
    ensures RecognizedFrom(texts, s1, i) == RecognizedFrom(texts, s2, i)
    decreases |texts| - i
  {
    if i < |texts| {
      ContributionAgrees(texts, s1, s2, b, i);
      NextStart(i);
      FromAgrees(texts, s1, s2, b, i + MaxBatchSize);
    }
  }

  /** A call that fails removes exactly that batch's results: the results
      of the earlier and the later batches are the same as when it succeeds. */
  lemma BatchFailureIsolated(texts: seq<string>, s1: EntityService, s2: EntityService, b: nat)
    requires b < |texts| && b % MaxBatchSize == 0
    requires AgreeExcept(s1, s2, MakeBatch(texts, b))
    requires s2(MakeBatch(texts, b)) == ServiceFailure
    ensures Recognized(texts, s1) ==
      RecognizedBetween(texts, s1, 0, b) + Contribution(texts, s1, b) + RecognizedFrom(texts, s1, b + MaxBatchSize)
    ensures Recognized(texts, s2) ==
      RecognizedBetween(texts, s1, 0, b) + RecognizedFrom(texts, s1, b + MaxBatchSize)
  {
    var before := RecognizedBetween(texts, s1, 0, b);
    var c := Contribution(texts, s1, b);
    var after := RecognizedFrom(texts, s1, b + MaxBatchSize);
    assert Recognized(texts, s1) == before + c + after by {
      RecognizedSplit(texts, s1, 0, b);
      assert RecognizedFrom(texts, s1, b) == c + after;
      AppendAssoc(before, c, after);
    }
    assert Recognized(texts, s2) == before + after by {
      RecognizedSplit(texts, s2, 0, b);
      BetweenAgrees(texts, s1, s2, b, 0);
      NextStart(b);
      FromAgrees(texts, s1, s2, b, b + MaxBatchSize);
      assert Contribution(texts, s2, b) == [];
      assert RecognizedFrom(texts, s2, b) == after;
    }
  }

  // ---------------------------------------------------------------------
  // Pairing by id
  // ---------------------------------------------------------------------

  /** The first document of the batch sent under the given id. */
  function Lookup(batch: Batch, id: string): (r: Option<Document>)
    ensures r.Some? ==> r.value in batch && r.value.id == id
    ensures r.None? ==> forall k :: 0 <= k < |batch| ==> batch[k].id != id
  {
    if batch == [] then None
    else if batch[0].id == id then Some(batch[0])
    else Lookup(batch[1..], id)
  }

  lemma {:induction false} LookupFirst(batch: Batch, id: string, k: nat)
    requires k < |batch| && batch[k].id == id
    requires forall m :: 0 <= m < k ==> batch[m].id != id
    ensures Lookup(batch, id) == Some(batch[k])
  {
    if k > 0 {
      LookupFirst(batch[1..], id, k - 1);
    }
  }

  /** The response loop with each result paired with the document sent under
      the id the service answered, as the id-in-range check intends: the
      same skips and the same ValueError, but no offset arithmetic. */
  function ReconcileById(docs: seq<DocumentResult>, batch: Batch): seq<EntityResult> {
    if docs == [] then []
    else if docs[0].isError then ReconcileById(docs[1..], batch)
    else
      match ParseInt(docs[0].id)
      case None => []
      case Some(docId) =>
        var sent := if docId >= 0 then Lookup(batch, NatToString(docId)) else None;
        (if sent.Some? then [EntityResult(sent.value.text, Annotations(docs[0].entities))] else [])
        + ReconcileById(docs[1..], batch)
  }

  /** r pairs the entities of a document the service answered under id t
      with line t, the line sent under that id. */
  ghost predicate PairedWithLine(r: EntityResult, docs: seq<DocumentResult>, texts: seq<string>, i: nat) {
    exists m, t ::
      && 0 <= m < |docs|
      && !docs[m].isError
      && ParseInt(docs[m].id) == Some(t)
      && i <= t < i + MaxBatchSize && t < |texts|
      && !Blank(texts[t])
      && r == EntityResult(texts[t], Annotations(docs[m].entities))
  }

  /** Every result of the corrected loop carries the text of the line whose
      id the service answered, together with that answer's entities. */
  lemma {:induction false} ReconcileByIdPairs(docs: seq<DocumentResult>, texts: seq<string>, i: nat)
    requires i <= |texts|
    ensures forall k :: 0 <= k < |ReconcileById(docs, MakeBatch(texts, i))| ==>
      PairedWithLine(ReconcileById(docs, MakeBatch(texts, i))[k], docs, texts, i)
  {
    var batch := MakeBatch(texts, i);
    if docs != [] {
      ReconcileByIdPairs(docs[1..], texts, i);
      var tail := ReconcileById(docs[1..], batch);
      forall k | 0 <= k < |tail|
        ensures PairedWithLine(tail[k], docs, texts, i)
      {
        PairedInTail(tail[k], docs, texts, i);
      }
      if !docs[0].isError && ParseInt(docs[0].id).Some? {
        var docId := ParseInt(docs[0].id).value;
        var sent := if docId >= 0 then Lookup(batch, NatToString(docId)) else None;
        var head := if sent.Some? then [EntityResult(sent.value.text, Annotations(docs[0].entities))] else [];
        assert ReconcileById(docs, batch) == head + tail;
        if sent.Some? {
          LookupPairs(docs, texts, i, docId);
        }
        forall k | 0 <= k < |head + tail|
          ensures PairedWithLine((head + tail)[k], docs, texts, i)
        {
          if k >= |head| {
            assert (head + tail)[k] == tail[k - |head|];
          }
        }
      }
    }
  }

  lemma PairedInTail(r: EntityResult, docs: seq<DocumentResult>, texts: seq<string>, i: nat)
    requires docs != [] && PairedWithLine(r, docs[1..], texts, i)
    ensures PairedWithLine(r, docs, texts, i)
  {
    var m, t :| && 0 <= m < |docs[1..]|
                && !docs[1..][m].isError
                && ParseInt(docs[1..][m].id) == Some(t)
                && i <= t < i + MaxBatchSize && t < |texts|
                && !Blank(texts[t])
                && r == EntityResult(texts[t], Annotations(docs[1..][m].entities));
    assert docs[1..][m] == docs[m + 1];
  }

  /** The document Lookup finds for the id the first answer carries is the
      line sent under that id. */
  lemma LookupPairs(docs: seq<DocumentResult>, texts: seq<string>, i: nat, docId: int)
    requires i <= |texts| && docs != [] && !docs[0].isError && ParseInt(docs[0].id) == Some(docId)
    requires docId >= 0 && Lookup(MakeBatch(texts, i), NatToString(docId)).Some?
    ensures PairedWithLine(EntityResult(Lookup(MakeBatch(texts, i), NatToString(docId)).value.text,
                                        Annotations(docs[0].entities)), docs, texts, i)
  {
    var batch := MakeBatch(texts, i);
    var d := Lookup(batch, NatToString(docId)).value;
    BatchShape(texts, i);
    var j :| 0 <= j < |batch| && batch[j] == d;
    assert SentFor(d, texts, i);
    var t :| SentAt(d, texts, i, t);
    NatToStringInjective(docId, t);
    assert d.text == texts[t];
  }

  /** The answer doc is not flagged as errored and carries the id of a line
      t the batch at i sent: a non-blank line of the window. */
  predicate AnswersSentLine(doc: DocumentResult, texts: seq<string>, i: nat) {
    && !doc.isError
    && ParseInt(doc.id).Some?
    && i <= ParseInt(doc.id).value < i + MaxBatchSize
    && ParseInt(doc.id).value < |texts|
    && !Blank(texts[ParseInt(doc.id).value])
  }

  /** The number of answers among docs that answer a line sent. */
  function CountAnswersSent(docs: seq<DocumentResult>, texts: seq<string>, i: nat): nat {
    if docs == [] then 0
    else (if AnswersSentLine(docs[0], texts, i) then 1 else 0) + CountAnswersSent(docs[1..], texts, i)
  }

  /** The id str(t) is in the batch at i exactly when line t is a non-blank
      line of its window, and then it is sent with that line's text. */
  lemma LookupSent(texts: seq<string>, i: nat, t: nat)
    requires i <= |texts|
    ensures Lookup(MakeBatch(texts, i), NatToString(t)).Some? <==>
      i <= t < i + MaxBatchSize && t < |texts| && !Blank(texts[t])
    ensures Lookup(MakeBatch(texts, i), NatToString(t)).Some? ==>
      Lookup(MakeBatch(texts, i), NatToString(t)).value.text == texts[t]
  {
    var batch := MakeBatch(texts, i);
    BatchShape(texts, i);
    if Lookup(batch, NatToString(t)).Some? {
      var d := Lookup(batch, NatToString(t)).value;
      var j :| 0 <= j < |batch| && batch[j] == d;
      assert SentFor(d, texts, i);
      var u :| SentAt(d, texts, i, u);
      NatToStringInjective(t, u);
    }
  }

  /** The converse of ReconcileByIdPairs: every answer before the first one
      that raises yields a result when it answers a line that was sent, and
      only then. */
  lemma {:induction false} ReconcileByIdCount(docs: seq<DocumentResult>, texts: seq<string>, i: nat)
    requires i <= |texts|
    ensures |ReconcileById(docs, MakeBatch(texts, i))| == CountAnswersSent(docs[..RaisePoint(docs)], texts, i)
  {
    var batch := MakeBatch(texts, i);
    if docs != [] && !Raises(docs[0]) {
      ReconcileByIdCount(docs[1..], texts, i);
      var p := RaisePoint(docs);
      assert docs[..p][0] == docs[0];
      assert docs[..p][1..] == docs[1..][..RaisePoint(docs[1..])];
      if !docs[0].isError {
        var docId := ParseInt(docs[0].id).value;
        if docId >= 0 {
          LookupSent(texts, i, docId);
        }
      }
    }
  }

  /** Every answer before the first one that raises that answers a line
      sent yields a result: that line's text with the answer's entities. */
  lemma {:induction false} ReconcileByIdComplete(docs: seq<DocumentResult>, texts: seq<string>, i: nat, m: nat)
    requires i <= |texts|
    requires m < RaisePoint(docs) && AnswersSentLine(docs[m], texts, i)
    ensures EntityResult(texts[ParseInt(docs[m].id).value], Annotations(docs[m].entities))
      in ReconcileById(docs, MakeBatch(texts, i))
  {
    var batch := MakeBatch(texts, i);
    var tail := ReconcileById(docs[1..], batch);
    if m == 0 {
      var t := ParseInt(docs[0].id).value;
      LookupSent(texts, i, t);
      var sent := Lookup(batch, NatToString(t));
      assert ReconcileById(docs, batch) == [EntityResult(sent.value.text, Annotations(docs[0].entities))] + tail;
    } else {
      assert docs[1..][m - 1] == docs[m];
      ReconcileByIdComplete(docs[1..], texts, i, m - 1);
      if !docs[0].isError {
        var t := ParseInt(docs[0].id).value;
        var sent := if t >= 0 then Lookup(batch, NatToString(t)) else None;
        var head := if sent.Some? then [EntityResult(sent.value.text, Annotations(docs[0].entities))] else [];
        assert ReconcileById(docs, batch) == head + tail;
      }
    }
  }

  /** With no blank line, the document at offset t - i of the batch is the
      one sent under str(t), and no other id is in the batch. */
  lemma LookupNonBlank(texts: seq<string>, i: nat, t: nat)
    requires i <= |texts| && AllNonBlank(texts)
    ensures i <= t < i + |MakeBatch(texts, i)| ==>
      Lookup(MakeBatch(texts, i), NatToString(t)) == Some(MakeBatch(texts, i)[t - i])
    ensures !(i <= t < i + |MakeBatch(texts, i)|) ==>
      Lookup(MakeBatch(texts, i), NatToString(t)) == None
  {
    var batch := MakeBatch(texts, i);
    BatchOfNonBlank(texts, i);
    if i <= t < i + |batch| {
      forall m | 0 <= m < t - i
        ensures batch[m].id != NatToString(t)
      {
        NatToStringInjective(i + m, t);
      }
      LookupFirst(batch, NatToString(t), t - i);
    } else if Lookup(batch, NatToString(t)).Some? {
      var j :| 0 <= j < |batch| && batch[j] == Lookup(batch, NatToString(t)).value;
      NatToStringInjective(i + j, t);
    }
  }

  /** With no blank line the offset arithmetic finds the right document: the
      loop as written and the pairing by id give the same results. */
  lemma {:induction false} ReconcileAgreesById(docs: seq<DocumentResult>, texts: seq<string>, i: nat)
    requires i <= |texts| && AllNonBlank(texts)
    ensures Reconcile(docs, i, MakeBatch(texts, i)) == ReconcileById(docs, MakeBatch(texts, i))
  {
    var batch := MakeBatch(texts, i);
    if docs != [] {
      ReconcileAgreesById(docs[1..], texts, i);
      if !docs[0].isError && ParseInt(docs[0].id).Some? {
        var docId := ParseInt(docs[0].id).value;
        var entities := Annotations(docs[0].entities);
        var asWritten := if i <= docId < i + |batch| then [EntityResult(batch[docId - i].text, entities)] else [];
        var sent := if docId >= 0 then Lookup(batch, NatToString(docId)) else None;
        var byId := if sent.Some? then [EntityResult(sent.value.text, entities)] else [];
        if docId >= 0 {
          LookupNonBlank(texts, i, docId);
        }
        assert asWritten == byId;
        assert Reconcile(docs, i, batch) == asWritten + Reconcile(docs[1..], i, batch);
        assert ReconcileById(docs, batch) == byId + ReconcileById(docs[1..], batch);
      }
    }
  }

  function ContributionById(texts: seq<string>, service: EntityService, i: nat): seq<EntityResult>
    requires i <= |texts|
  {
    var batch := MakeBatch(texts, i);
    if batch == [] then []
    else match service(batch)
      case ServiceFailure => []
      case Documents(docs) => ReconcileById(docs, batch)
  }

  function RecognizedByIdFrom(texts: seq<string>, service: EntityService, i: nat): seq<EntityResult>
    decreases |texts| - i
  {
    if i >= |texts| then []
    else ContributionById(texts, service, i) + RecognizedByIdFrom(texts, service, i + MaxBatchSize)
  }

  /** recognize_entities with results paired by id. */
  function RecognizedById(texts: seq<string>, service: EntityService): seq<EntityResult> {
    RecognizedByIdFrom(texts, service, 0)
  }

  lemma {:induction false} RecognizedFromAgreesById(texts: seq<string>, service: EntityService, i: nat)
    requires AllNonBlank(texts)
    ensures RecognizedFrom(texts, service, i) == RecognizedByIdFrom(texts, service, i)
    decreases |texts| - i
  {
    if i < |texts| {
      RecognizedFromAgreesById(texts, service, i + MaxBatchSize);
      var batch := MakeBatch(texts, i);
      if batch != [] && service(batch).Documents? {
        ReconcileAgreesById(service(batch).docs, texts, i);
      }
    }
  }

  /** On lines that are all non-blank, as the application's callers ensure,
      recognize_entities as written computes the corrected results. */
  lemma RecognizedAgreesById(texts: seq<string>, service: EntityService)
    requires AllNonBlank(texts)
    ensures Recognized(texts, service) == RecognizedById(texts, service)
  {
    RecognizedFromAgreesById(texts, service, 0);
  }

  /** Every corrected result from start i on carries the text of one of the
      lines. */
  lemma {:induction false} RecognizedByIdLines(texts: seq<string>, service: EntityService, i: nat, k: nat)
    requires k < |RecognizedByIdFrom(texts, service, i)|
    ensures RecognizedByIdFrom(texts, service, i)[k].text in texts
    ensures !Blank(RecognizedByIdFrom(texts, service, i)[k].text)
    decreases |texts| - i
  {
    var c := ContributionById(texts, service, i);
    var rest := RecognizedByIdFrom(texts, service, i + MaxBatchSize);
    assert RecognizedByIdFrom(texts, service, i) == c + rest;
    if k < |c| {
      var batch := MakeBatch(texts, i);
      assert batch != [] && service(batch).Documents?;
      var docs := service(batch).docs;
      ReconcileByIdPairs(docs, texts, i);
      assert (c + rest)[k] == c[k];
      assert PairedWithLine(c[k], docs, texts, i);
    } else {
      assert (c + rest)[k] == rest[k - |c|];
      RecognizedByIdLines(texts, service, i + MaxBatchSize, k - |c|);
    }
  }

  /** A blank first line shifts the pairing: the batch for [" ", "a", "b"] is
      [("1", "a"), ("2", "b")], and the loop as written answers id "1" with
      "b" (batch[1 - 0]) and drops id "2" as out of range, where pairing by id
      gives "a" and "b". */
  lemma BlankLineMispairs()
    ensures MakeBatch([" ", "a", "b"], 0) == [Document("1", "a"), Document("2", "b")]
    ensures Reconcile([DocumentResult(false, "1", []), DocumentResult(false, "2", [])], 0,
                      MakeBatch([" ", "a", "b"], 0))
         == [EntityResult("b", [])]
    ensures ReconcileById([DocumentResult(false, "1", []), DocumentResult(false, "2", [])],
                          MakeBatch([" ", "a", "b"], 0))
         == [EntityResult("a", []), EntityResult("b", [])]
  {
    var texts: seq<string> := [" ", "a", "b"];
    assert Blank(texts[0]);
    assert !Blank(texts[1]) by { assert !IsSpace(texts[1][0]); }
    assert !Blank(texts[2]) by { assert !IsSpace(texts[2][0]); }
    assert Window(texts, 0) == texts;
    assert NatToString(1) == "1" && NatToString(2) == "2";
    assert MakeBatch(texts, 0) == [Document("1", "a"), Document("2", "b")];
    ParseNatToString(1);
    ParseNatToString(2);
  }
}

/** The vectorisation workflows (src/services/allowance_vectorization_service.py):
    embedding questionnaire input, embedding a requested set of allowances,
    and embedding every allowance still without a record. Failures surface
    as the `EmbeddingErrors` taxonomy; store effects made before a failure
    persist, so the allowance workflows return the store with the
    outcome. */
module VectorizationService {

  import opened Wrappers
  import opened Text
  import opened Catalog
  import opened EmbeddingBuilder
  import opened Vectorizer
  import opened EmbeddingRepository
  import opened EmbeddingService
  import opened EmbeddingErrors

  // ---------------------------------------------------------------------------
  // vectorize_user_input
  // ---------------------------------------------------------------------------

  const EmptyInputDetail := "User input is empty after normalization."
  const VectorizeInputDetail := "Failed to vectorize user input."
  const EmptyEmbeddingDetail := "Vectorizer returned an empty embedding."

  /** `vectorize_user_input`: the query passage of the input, embedded. A
      blank input is a validation error and never reaches the vectoriser; a
      vectoriser failure or an empty vector is a processing error. */
  function VectorizeUserInput(port: Port, userInput: string): (r: Result<Vector, EmbeddingError>)
    ensures AllSpace(userInput) <==> r == Failure(EmbeddingError(Validation, EmptyInputDetail))
    ensures !AllSpace(userInput) && port.embed(BuildQuery(userInput)).Failure? ==>
      r == Failure(EmbeddingError(Processing, VectorizeInputDetail))
    ensures !AllSpace(userInput) && port.embed(BuildQuery(userInput)) == Success([]) ==>
      r == Failure(EmbeddingError(Processing, EmptyEmbeddingDetail))
    ensures r.Success? <==>
      && !AllSpace(userInput)
      && port.embed(BuildQuery(userInput)).Success?
      && port.embed(BuildQuery(userInput)).value != []
    ensures r.Success? ==> r.value == port.embed(BuildQuery(userInput)).value
    ensures r.Failure? ==> r.error.kind != NotFound
  {
    var normalized := BuildQuery(userInput);
    if normalized == "" then Failure(Raise(Validation, Some(EmptyInputDetail)))
    else
      match port.embed(normalized)
      case Failure(_) => Failure(Raise(Processing, Some(VectorizeInputDetail)))
      case Success(embedding) =>
        if embedding == [] then Failure(Raise(Processing, Some(EmptyEmbeddingDetail)))
        else Success(embedding)
  }

  /** A blank input is rejected before the vectoriser is consulted: any two
      vectorisers give the same validation error. */
  lemma BlankInputSkipsVectorizer(p: Port, q: Port, userInput: string)
    requires AllSpace(userInput)
    ensures VectorizeUserInput(p, userInput) == VectorizeUserInput(q, userInput)
    ensures VectorizeUserInput(p, userInput).Failure?
  {
  }

  /** Only the words of the input matter: inputs that differ in whitespace
      layout alone are vectorised identically. */
  lemma VectorizeIgnoresLayout(port: Port, a: string, b: string)
    requires Split(a) == Split(b)
    ensures VectorizeUserInput(port, a) == VectorizeUserInput(port, b)
  {
    BuildQueryIgnoresLayout(a, b);
  }

  // ---------------------------------------------------------------------------
  // vectorize_allowances
  // ---------------------------------------------------------------------------

  /** `AllowanceRepository.list_by_ids`: the catalogue's allowances whose
      identifier was requested, in catalogue order. */
  function ListByIds(catalog: seq<Allowance>, ids: seq<AllowanceId>): (r: seq<Allowance>)
    ensures forall a :: a in r <==> a in catalog && a.id in ids
    ensures |r| <= |catalog|
  {
    if |catalog| == 0 then []
    else (if catalog[0].id in ids then [catalog[0]] else []) + ListByIds(catalog[1..], ids)
  }

  /** The identifiers of `xs`, in order. */
  function IdSeq(xs: seq<Allowance>): (r: seq<AllowanceId>)
    ensures |r| == |xs|
    ensures forall i :: 0 <= i < |xs| ==> r[i] == xs[i].id
  {
    if |xs| == 0 then [] else [xs[0].id] + IdSeq(xs[1..])
  }

  /** The requested identifiers that were not processed, in request order
      (duplicates kept, as the list comprehension keeps them). */
  function Unprocessed(ids: seq<AllowanceId>, processed: seq<AllowanceId>): (r: seq<AllowanceId>)
    ensures forall x :: x in r <==> x in ids && x !in processed
    ensures |r| <= |ids|
  {
    if |ids| == 0 then []
    else (if ids[0] in processed then [] else [ids[0]]) + Unprocessed(ids[1..], processed)
  }

  /** The filter keeps request order: it distributes over concatenation. */
  lemma {:induction false} UnprocessedAppend(a: seq<AllowanceId>, b: seq<AllowanceId>, processed: seq<AllowanceId>)
    ensures Unprocessed(a + b, processed) == Unprocessed(a, processed) + Unprocessed(b, processed)
  {
    if |a| == 0 {
      assert a + b == b;
    } else {
      var h := if a[0] in processed then [] else [a[0]];
      assert Unprocessed(a + b, processed) == h + Unprocessed(a[1..] + b, processed) by {
        assert (a + b)[0] == a[0];
        assert (a + b)[1..] == a[1..] + b;
      }
      UnprocessedAppend(a[1..], b, processed);
    }
  }

  /** What a successful `vectorize_allowances` reports. */
  datatype VectorizeResult = VectorizeResult(processedIds: seq<AllowanceId>, missingIds: seq<AllowanceId>)

  /** The store after `vectorize_allowances` and its outcome. */
  datatype VectorizeRun = VectorizeRun(store: Store, result: Result<VectorizeResult, EmbeddingError>)

  const IdsRequiredDetail := "Allowance identifiers are required for vectorization."
  const NoMatchDetail := "No allowances found for the provided identifiers."

  /** The processing-error detail naming the allowance that failed. */
  function IndexFailedDetail(id: AllowanceId): (d: string)
    ensures StartsWith(d, "Failed to create embedding for allowance id=")
    ensures EndsWith(d, ".")
  {
    "Failed to create embedding for allowance id=" + IntToString(id) + "."
  }

  /** `vectorize_allowances`: an empty request is a validation error and a
      request matching no allowance is a not-found error, neither touching
      the store; otherwise the matching allowances are indexed in lookup
      order, and the first failure becomes a processing error. Only
      requested records can change and none is removed. */
  function VectorizeAllowances(catalog: seq<Allowance>, store: Store, ix: Indexer, ids: seq<AllowanceId>): (r: VectorizeRun)
    ensures ids == [] ==> r == VectorizeRun(store, Failure(EmbeddingError(Validation, IdsRequiredDetail)))
    ensures ids != [] && (forall a :: a in catalog ==> a.id !in ids) ==>
      r == VectorizeRun(store, Failure(EmbeddingError(NotFound, NoMatchDetail)))
    ensures r.result.Success? ==>
      var looked := ListByIds(catalog, ids);
      && r.result.value.processedIds == IdSeq(looked)
      && r.result.value.missingIds == Unprocessed(ids, IdSeq(looked))
    ensures (r.result.Failure? && r.result.error.kind == NotFound) <==> (ids != [] && ListByIds(catalog, ids) == [])
    ensures ids != [] && ListByIds(catalog, ids) != [] ==>
      var b := IndexMany(store, ix, ListByIds(catalog, ids));
      && r.store == b.store
      && (r.result.Success? <==> b.error.None?)
      && (b.error.Some? ==>
            r.result == Failure(EmbeddingError(Processing, IndexFailedDetail(ListByIds(catalog, ids)[b.processed].id))))
    ensures r.result.Failure? && r.result.error.kind != Processing ==> r.store == store
    ensures forall k :: k in store && k !in ids ==> k in r.store && r.store[k] == store[k]
    ensures store.Keys <= r.store.Keys
  {
    if ids == [] then VectorizeRun(store, Failure(Raise(Validation, Some(IdsRequiredDetail))))
    else
      var looked := ListByIds(catalog, ids);
      if looked == [] then VectorizeRun(store, Failure(Raise(NotFound, Some(NoMatchDetail))))
      else
        var b := IndexMany(store, ix, looked);
        LookedUpIdsRequested(catalog, ids);
        match b.error
        case Some(_) =>
          VectorizeRun(b.store, Failure(Raise(Processing, Some(IndexFailedDetail(looked[b.processed].id)))))
        case None =>
          var processed := IdSeq(looked);
          VectorizeRun(b.store, Success(VectorizeResult(processed, Unprocessed(ids, processed))))
  }

  /** Every looked-up allowance was requested. */
  lemma LookedUpIdsRequested(catalog: seq<Allowance>, ids: seq<AllowanceId>)
    ensures forall k :: k in IdsOf(ListByIds(catalog, ids)) ==> k in ids
  {
    var looked := ListByIds(catalog, ids);
    forall k | k in IdsOf(looked) ensures k in ids {
      var i :| 0 <= i < |looked| && looked[i].id == k;
      assert looked[i] in looked;
    }
  }

  /** Indexing `looked` stopped at position `i`: the allowances before it
      were indexed, leaving `after`, and indexing the next one from there
      failed, with `detail` naming it. */
  predicate StoppedAt(store: Store, ix: Indexer, looked: seq<Allowance>, after: Store, detail: string, i: int) {
    && 0 <= i < |looked|
    && IndexMany(store, ix, looked[..i]) == Batch(after, i, None)
    && IndexAllowance(after, ix, looked[i]).Failure?
    && detail == IndexFailedDetail(looked[i].id)
  }

  /** A processing error names the first looked-up allowance whose indexing
      failed: those before it were indexed, and the store is the one they
      left. */
  lemma VectorizeStopsAtFailure(catalog: seq<Allowance>, store: Store, ix: Indexer, ids: seq<AllowanceId>)
    requires VectorizeAllowances(catalog, store, ix, ids).result.Failure?
    requires VectorizeAllowances(catalog, store, ix, ids).result.error.kind == Processing
    ensures exists i :: StoppedAt(store, ix, ListByIds(catalog, ids), VectorizeAllowances(catalog, store, ix, ids).store,
                                  VectorizeAllowances(catalog, store, ix, ids).result.error.detail, i)
  {
    var r := VectorizeAllowances(catalog, store, ix, ids);
    var looked := ListByIds(catalog, ids);
    var b := IndexMany(store, ix, looked);
    assert ids != [] && looked != [];
    assert b.error.Some? && r.store == b.store;
    assert r.result.error.detail == IndexFailedDetail(looked[b.processed].id);
    IndexManyStopsAtFailure(store, ix, looked);
    assert StoppedAt(store, ix, looked, r.store, r.result.error.detail, b.processed);
  }

  /** A successful run leaves a record for every looked-up allowance that
      can be indexed. */
  lemma VectorizeCompletes(catalog: seq<Allowance>, store: Store, ix: Indexer, ids: seq<AllowanceId>)
    requires VectorizeAllowances(catalog, store, ix, ids).result.Success?
    ensures var r := VectorizeAllowances(catalog, store, ix, ids);
      forall a :: a in catalog && a.id in ids && Indexable(ix, a) ==> a.id in r.store
  {
    var looked := ListByIds(catalog, ids);
    IndexManyCompletes(store, ix, looked);
    forall a | a in catalog && a.id in ids && Indexable(ix, a)
      ensures a.id in IndexMany(store, ix, looked).store
    {
      var i :| 0 <= i < |looked| && looked[i] == a;
    }
  }

  /** The looked-up identifiers are exactly the requested ones the
      catalogue holds. */
  lemma LookedUpIds(catalog: seq<Allowance>, ids: seq<AllowanceId>, x: AllowanceId)
    ensures x in IdSeq(ListByIds(catalog, ids)) <==> x in ids && HasId(catalog, x)
  {
    var looked := ListByIds(catalog, ids);
    var s := IdSeq(looked);
    if x in s {
      var i :| 0 <= i < |s| && s[i] == x;
      assert looked[i] in looked;
      var j :| 0 <= j < |catalog| && catalog[j] == looked[i];
    }
    if x in ids && HasId(catalog, x) {
      var j :| 0 <= j < |catalog| && catalog[j].id == x;
      assert catalog[j] in looked;
      var i :| 0 <= i < |looked| && looked[i] == catalog[j];
      assert s[i] == x;
    }
  }

  /** A successful run partitions the request: an identifier is reported
      missing exactly when it was requested and the catalogue has no
      allowance with it, and processed exactly when it has one. */
  lemma VectorizeReportsPartition(catalog: seq<Allowance>, store: Store, ix: Indexer, ids: seq<AllowanceId>, x: AllowanceId)
    requires VectorizeAllowances(catalog, store, ix, ids).result.Success?
    ensures var res := VectorizeAllowances(catalog, store, ix, ids).result.value;
      && (x in res.missingIds <==> x in ids && !HasId(catalog, x))
      && (x in res.processedIds <==> x in ids && HasId(catalog, x))
  {
    LookedUpIds(catalog, ids, x);
  }

  // ---------------------------------------------------------------------------
  // vectorize_missing_allowances
  // ---------------------------------------------------------------------------

  /** What `vectorize_missing_allowances` can raise: its own not-found
      error, or a vectoriser failure that `index_missing` lets through
      unchanged. */
  datatype MissingError = Embedding(error: EmbeddingError) | Vectorizing(cause: VectorizerError)

  const NothingMissingDetail := "No allowances without embeddings were found."

  /** `vectorize_missing_allowances`: `index_missing`, with a run that found
      nothing to index reported as not-found. */
  function VectorizeMissingAllowances(catalog: seq<Allowance>, store: Store, ix: Indexer): (r: (Store, Result<nat, MissingError>))
    ensures ListWithoutEmbeddings(catalog, store) == [] <==>
      r == (store, Failure(Embedding(EmbeddingError(NotFound, NothingMissingDetail))))
    ensures r.1.Success? ==> r.1.value == |ListWithoutEmbeddings(catalog, store)| > 0
    ensures IndexMissing(catalog, store, ix).result.Success? && ListWithoutEmbeddings(catalog, store) != [] ==>
      r.1 == Success(|ListWithoutEmbeddings(catalog, store)|)
    ensures r.0 == IndexMissing(catalog, store, ix).store
    ensures IndexMissing(catalog, store, ix).result.Failure? ==>
      r.1 == Failure(Vectorizing(IndexMissing(catalog, store, ix).result.error))
    ensures forall k :: k in store ==> k in r.0 && r.0[k] == store[k]
  {
    var run := IndexMissing(catalog, store, ix);
    match run.result
    case Failure(e) => (run.store, Failure(Vectorizing(e)))
    case Success(created) =>
      if created == 0 then (run.store, Failure(Embedding(Raise(NotFound, Some(NothingMissingDetail)))))
      else (run.store, Success(created))
  }

  /** `vectorize_missing_allowances` as the code has it: `created` is the
      `None` that `index_missing` returns, which Python never finds equal
      to 0, so a run with nothing to index is not reported and the call
      returns `None`. */
  function VectorizeMissingAsWritten(catalog: seq<Allowance>, store: Store, ix: Indexer): (r: (Store, Result<Option<nat>, MissingError>))
    ensures r.0 == VectorizeMissingAllowances(catalog, store, ix).0
    ensures r.1.Failure? <==> IndexMissing(catalog, store, ix).result.Failure?
    ensures r.1.Failure? ==> r.1.error == VectorizeMissingAllowances(catalog, store, ix).1.error
    ensures r.1.Success? ==> r.1.value.None?
    ensures r.1.Failure? ==> r.1.error.Vectorizing?
  {
    var (after, failure) := IndexMissingAsWritten(catalog, store, ix);
    var created: Option<nat> := None;
    match failure
    case Some(e) => (after, Failure(Vectorizing(e)))
    case None =>
      if created == Some(0) then (after, Failure(Embedding(Raise(NotFound, Some(NothingMissingDetail)))))
      else (after, Success(created))
  }

  /** The code as written never reports not-found: on a catalogue with
      every allowance indexed it returns `None` and leaves the store as it
      was, where the documented behaviour raises not-found. */
  lemma NoOpRunNotReported(catalog: seq<Allowance>, store: Store, ix: Indexer)
    requires ListWithoutEmbeddings(catalog, store) == []
    ensures VectorizeMissingAsWritten(catalog, store, ix) == (store, Success(None))
    ensures VectorizeMissingAllowances(catalog, store, ix) ==
      (store, Failure(Embedding(EmbeddingError(NotFound, NothingMissingDetail))))
  {
  }

  /** Whatever the catalogue, the call as written never raises its own
      not-found error. */
  lemma AsWrittenNeverNotFound(catalog: seq<Allowance>, store: Store, ix: Indexer)
    ensures var r := VectorizeMissingAsWritten(catalog, store, ix).1;
      r.Failure? ==> r.error.Vectorizing?
  {
  }
}

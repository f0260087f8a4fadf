/** The cross-encoder reranker (src/services/reranker.py) as an explicit
    state machine: the model is absent until the first call that needs it
    loads it, and is reused from then on. The model loader, its duration
    and the model's `predict` are parameters. */
module Reranker {

  import opened Wrappers

  /** A loaded cross-encoder, identified by a token so that reranker
      states can be compared. */
  datatype Model = Model(token: nat)

  /** The reranker's state: its configuration and the cached model. */
  datatype Reranker = Reranker(modelName: string, loadTimeoutSeconds: real, model: Option<Model>)

  /** What constructing `CrossEncoder(model_name)` would do now, and how
      long it would take. */
  datatype LoadOutcome = Constructed(loaded: Model) | Raised(message: string)
  datatype LoadAttempt = LoadAttempt(outcome: LoadOutcome, seconds: real)

  datatype RerankError = LoadTimedOut(timeoutSeconds: real) | LoadFailed(message: string)

  /** A state after an operation, with the operation's outcome. */
  datatype Step<T> = Step(state: Reranker, result: Result<T, RerankError>)

  /** The initial state: configured, nothing loaded. */
  function New(modelName: string, loadTimeoutSeconds: real): (r: Reranker)
    ensures r.modelName == modelName && r.loadTimeoutSeconds == loadTimeoutSeconds
    ensures r.model.None?
  {
    Reranker(modelName, loadTimeoutSeconds, None)
  }

  /** Whether the configured timeout cuts this load short: only a positive
      timeout is enforced. */
  predicate TimesOut(r: Reranker, load: LoadAttempt) {
    r.loadTimeoutSeconds > 0.0 && load.seconds > r.loadTimeoutSeconds
  }

  /** `_ensure_model_loaded`: a cached model is returned as is; otherwise
      the loader runs (under the timeout when one is configured) and only a
      successful load is cached. */
  function EnsureModelLoaded(r: Reranker, load: LoadAttempt): (s: Step<Model>)
    ensures s.state.modelName == r.modelName && s.state.loadTimeoutSeconds == r.loadTimeoutSeconds
    ensures r.model.Some? ==> s == Step(r, Success(r.model.value))
    ensures r.model.None? && TimesOut(r, load) ==>
      s == Step(r, Failure(LoadTimedOut(r.loadTimeoutSeconds)))
    ensures r.model.None? && !TimesOut(r, load) && load.outcome.Raised? ==>
      s == Step(r, Failure(LoadFailed(load.outcome.message)))
    ensures r.model.None? && !TimesOut(r, load) && load.outcome.Constructed? ==>
      s.result == Success(load.outcome.loaded) && s.state.model == Some(load.outcome.loaded)
    ensures s.result.Success? <==> s.state.model.Some?
    ensures s.result.Success? ==> s.state.model == Some(s.result.value)
  {
    if r.model.Some? then Step(r, Success(r.model.value))
    else if TimesOut(r, load) then Step(r, Failure(LoadTimedOut(r.loadTimeoutSeconds)))
    else
      match load.outcome
      case Raised(message) => Step(r, Failure(LoadFailed(message)))
      case Constructed(m) => Step(r.(model := Some(m)), Success(m))
  }

  /** `warm_up`: loads the model ahead of traffic. */
  function WarmUp(r: Reranker, load: LoadAttempt): (s: Step<()>)
    ensures s.result.Success? <==> s.state.model.Some?
    ensures r.model.Some? ==> s == Step(r, Success(()))
    ensures s.result.Failure? ==> s.state == r
  {
    var loaded := EnsureModelLoaded(r, load);
    match loaded.result
    case Success(_) => Step(loaded.state, Success(()))
    case Failure(e) => Step(loaded.state, Failure(e))
  }

  /** `model.predict` over the (query, document) pairs, in document
      order. */
  function PredictAll(m: Model, query: string, documents: seq<string>,
                      predict: (Model, string, string) -> real): (scores: seq<real>)
    ensures |scores| == |documents|
    ensures forall i :: 0 <= i < |documents| ==> scores[i] == predict(m, query, documents[i])
  {
    if |documents| == 0 then []
    else [predict(m, query, documents[0])] + PredictAll(m, query, documents[1..], predict)
  }

  /** `score`: no documents means no scores and no load; otherwise one
      score per document, paired with the query, in document order. */
  function Score(r: Reranker, query: string, documents: seq<string>, load: LoadAttempt,
                 predict: (Model, string, string) -> real): (s: Step<seq<real>>)
    ensures documents == [] ==> s == Step(r, Success([]))
    ensures documents != [] ==> s.state == EnsureModelLoaded(r, load).state
    ensures documents != [] && s.result.Success? ==>
      s.state.model.Some? &&
      var m := s.state.model.value;
      |s.result.value| == |documents|
      && forall i :: 0 <= i < |documents| ==> s.result.value[i] == predict(m, query, documents[i])
    ensures documents != [] ==> (s.result.Failure? <==> EnsureModelLoaded(r, load).result.Failure?)
  {
    if documents == [] then Step(r, Success([]))
    else
      var loaded := EnsureModelLoaded(r, load);
      match loaded.result
      case Failure(e) => Step(loaded.state, Failure(e))
      case Success(m) => Step(loaded.state, Success(PredictAll(m, query, documents, predict)))
  }

  /** Scoring no documents never touches the loader: any two load attempts
      give the same step. */
  lemma EmptyScoreSkipsLoad(r: Reranker, query: string, a: LoadAttempt, b: LoadAttempt,
                            predict: (Model, string, string) -> real)
    ensures Score(r, query, [], a, predict) == Score(r, query, [], b, predict)
  {
  }

  /** A loaded model is reused: whatever a later load attempt would do, it
      is not consulted and the state does not change. */
  lemma LoadedModelReused(r: Reranker, a: LoadAttempt, b: LoadAttempt)
    requires r.model.Some?
    ensures EnsureModelLoaded(r, a) == EnsureModelLoaded(r, b)
    ensures EnsureModelLoaded(r, a).state == r
  {
  }

  /** After a successful warm-up, scoring uses the warmed model and never
      loads again. */
  lemma WarmUpThenScore(r: Reranker, warm: LoadAttempt, later: LoadAttempt, other: LoadAttempt,
                        query: string, documents: seq<string>,
                        predict: (Model, string, string) -> real)
    requires WarmUp(r, warm).result.Success?
    ensures var w := WarmUp(r, warm).state;
      Score(w, query, documents, later, predict) == Score(w, query, documents, other, predict)
      && Score(w, query, documents, later, predict).state == w
  {
    var w := WarmUp(r, warm).state;
    LoadedModelReused(w, later, other);
  }

  /** A failed or timed-out load leaves nothing cached, so the next call
      retries the loader and can succeed. */
  lemma FailedLoadRetries(r: Reranker, failed: LoadAttempt, m: Model, seconds: real)
    requires r.model.None?
    requires EnsureModelLoaded(r, failed).result.Failure?
    requires r.loadTimeoutSeconds <= 0.0 || seconds <= r.loadTimeoutSeconds
    ensures EnsureModelLoaded(r, failed).state.model.None?
    ensures EnsureModelLoaded(EnsureModelLoaded(r, failed).state, LoadAttempt(Constructed(m), seconds)).result
      == Success(m)
  {
  }

  /** Without a positive timeout, the load's duration is irrelevant. */
  lemma NoTimeoutWithoutPositiveLimit(r: Reranker, outcome: LoadOutcome, s1: real, s2: real)
    requires r.loadTimeoutSeconds <= 0.0
    ensures EnsureModelLoaded(r, LoadAttempt(outcome, s1)) == EnsureModelLoaded(r, LoadAttempt(outcome, s2))
  {
  }
}

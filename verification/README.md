# Allowance embeddings, search and scrapers — a Dafny model

This project models the core of the allowance service. The service stores
social-support "allowances" (a programme name, the number and title of the
regulating law, the eligible subjects). It builds text passages for them,
embeds those passages as vectors, and answers searches. It also refills the
allowance table from two dom.rf scrapers.

Each source file of the core is one Dafny module:

- `EmbeddingBuilder` (src/services/embedding_builder.py): whitespace
  normalisation and the fixed-order `passage: …` and `query: …` texts.
- `EmbeddingRepository` (src/repositories/allowance_embedding_repository.py):
  the embedding table as a map from allowance id to (embedding, model).
  It has an upsert on the id, an anti-join listing the allowances without an
  embedding, and the closest-first search with a limit.
- `EmbeddingService` (src/services/allowance_embedding_service.py): indexing
  one allowance, a list of them in order, and only the missing ones.
- `VectorizationService` (src/services/allowance_vectorization_service.py):
  the three vectorisation workflows and their error results.
- `VectorSearch` (src/services/vector_search_service.py): the heuristic
  search. It has a blank-query guard, scores from an abstract similarity
  ratio, a stable descending sort and Python slicing.
- `AllowanceService` and `AllowanceRepository` (src/services/allowance_service.py,
  src/repositories/allowance_repository.py): cleaning, comma-joined
  subjects, validated creation and the all-or-nothing replace.
- `Vectorizer` and `Reranker` (src/services/vectorizer.py,
  src/services/reranker.py). The vectoriser is a blank-input guard plus a
  dimension check. The reranker is a state machine whose model is loaded
  lazily, once.
- `EmbeddingErrors` and `AllowanceErrors` (src/core/exceptions/*.py): the
  HTTP error kinds with their status codes and default details.
- `DomRfCatalog` (src/parsers/domrf.py): card-URL classification, the
  slug-derived fallback identifier and the card's decision logic with its
  length filters.
- `DomRfSitemap` (app/parsers/domrf.py): the sitemap keyword filter, NPA
  normalisation, the `№` number scanner and the candidate acceptance rule.
- `ParserBase` (src/parsers/base.py): how `run` aggregates per-source
  results.
- `Config` (src/config.py): settings from the environment and the two
  database URLs.

The shared modules are:

- `Text`: Python's `split`, `join`, `strip`, `rstrip`, `lower`, `upper`,
  substring search, `split(sep)[-1]`, `int()` and `str()`.
- `Sorting`: a stable descending insertion sort by a real-valued key.
- `Wrappers`: `Option` and `Result`.
- `Catalog`: the allowance record the services read.

The outside world is passed in as parameters:

- the database, as immutable tables and maps;
- the ML models, as functions (an encoder `string -> Result<vector>`, a
  `predict` function, a loader attempt);
- the similarity ratio and the cosine distance, as functions;
- the environment, as a function from variable names to optional values;
- the scraped pages, as the values the DOM queries would return.

A raising call is a `Result` failure. Where a failure leaves a lasting
effect, the operation returns the new state together with its outcome:
each upsert commits on its own, so records written before a failure stay.

Modelling choices and deviations from the code:

- **`index_missing` returns a count.** In the code it returns `None`, but
  `vectorize_missing_allowances` compares its result with `0`. The model
  of the intended behaviour, `EmbeddingService.IndexMissing`, returns the
  number of missing allowances it processed. The code as written is
  modelled too (`EmbeddingService.IndexMissingAsWritten`,
  `VectorizationService.VectorizeMissingAsWritten`); see "## Findings".
- **The allowance record.** It carries every field the services read:
  `npa_name`, `level`, `validity_period`. The ORM class in
  src/models/db/allowance.py does not declare all of these. Its `subjects`
  is the stored column: one optional string, the cleaned subjects joined
  with `,`.
- **The allowance payload.** The DTO in src/models/dto/allowances.py:11
  and :25 declares a required `npa_name` and no `npa_number`. The services
  read `.npa_number` (src/services/allowance_service.py:37 and :69), and
  the parser builds the DTO with `npa_number=` (src/parsers/domrf.py:184-189).
  As written those calls would fail. The model takes a payload with a
  `npaNumber` field and an optional `npaName`.
- **`normalize_text` in src/parsers/domrf.py.** Its definition is not part
  of this model. It is taken to be the same collapse-and-trim as
  `TextNormalizer.normalize`.

Behaviour of the code that the model keeps as written:

- **Stored subjects are iterated by character.** `index_allowance` hands
  the stored comma-joined subjects string to `build_document`, which
  iterates over it. Each character becomes a subject of its own, so the
  stored `"a,b"` gives the segment `eligibility: a; ,; b`
  (`EmbeddingService.CommaJoinedSubjectsPassage`).
- **Blank raw subjects in `build_document`.** A subject list whose entries
  are non-empty but blank yields the segment `eligibility: ` with nothing
  after the label. The filter looks at the raw subject, not the normalised
  one (`EmbeddingBuilder.BlankSubjectKeepsEligibility`).
- **Comma round trip for subjects.** Joining subjects with `,` can only be
  split back when no subject contains a comma
  (`AllowanceService.CommaSubjectBreaksShape` shows the counterexample).

## Model

| member | source | states |
|---|---|---|
| Text.Collapse | src/services/embedding_builder.py:13 | `" ".join(s.split())` has no edge space and no double space, keeps the same words as its input, and is empty exactly for blank input |
| Text.CollapseUnique | src/services/embedding_builder.py:13 | any whitespace-normalised string with the same words as `s` is `Collapse(s)`: the normal form is unique |
| Text.CollapseIdempotent | app/parsers/domrf.py:100-107 | normalising twice is normalising once |
| Text.CollapseKeepsContent | src/services/allowance_service.py:80-88 | collapsing keeps every visible character, in order |
| Text.SplitJoin | src/services/embedding_builder.py:13 | splitting the single-space join of whitespace-free words gives those words back |
| Text.NormalizedSplitJoin | src/services/embedding_builder.py:13 | joining the words of a normalised string with single spaces rebuilds it |
| Text.Strip | src/services/vector_search_service.py:26-28 | `strip()` has no edge whitespace, is empty exactly for blank input, and leaves a stripped string unchanged |
| Text.LastSplitPieceHasNoSeparator | src/parsers/domrf.py:123 | `split(sep)[-1]` never contains the separator |
| Text.ParseIntOfIntToString | src/config.py:16 | `int(str(n)) == n` for every integer, negative ones included |
| Text.FilteredEmpty | app/parsers/domrf.py:128-129 | the comprehension `[clean(v) for v in vs if clean(v)]` is empty exactly when every entry cleans to "" |
| Text.FilteredKeeps | src/parsers/domrf.py:324-327 | a property of every cleaned value holds of every kept entry |
| Text.ChosenPicks | app/parsers/domrf.py:83-97 | a loop that appends what the function yields gives what the function yields at increasing positions, in list order, with no yielding position left out |
| Text.PicksUnique | app/parsers/domrf.py:83-97 | two lists that are both the in-order, none-left-out values of one function over one list are equal: the characterisation determines the result |
| Text.FilteredPicks | app/parsers/domrf.py:128-129 | `[clean(v) for v in vs if clean(v)]` is the non-empty cleaned entries, in order, none left out |
| EmbeddingBuilder.Normalize | src/services/embedding_builder.py:6-13 | `None` gives ""; the result is whitespace-normalised, keeps the input's words, and is empty exactly for missing or blank input |
| EmbeddingBuilder.NormalizeIdempotent | src/services/embedding_builder.py:13 | normalising a normalised value returns it unchanged |
| EmbeddingBuilder.NonEmptyOnlyAppend | src/services/embedding_builder.py:43 | the `if subject` filter keeps input order: it distributes over concatenation |
| EmbeddingBuilder.CleanedSubjects | src/services/embedding_builder.py:42-45 | the cleaned subject list is empty exactly when every raw subject is empty |
| EmbeddingBuilder.AppendsIffPresent | src/services/embedding_builder.py:36-47 | a field appends a segment exactly when it is present: its normalised value is non-empty, or, for eligibility, some raw subject is non-empty |
| EmbeddingBuilder.AppendParts | src/services/embedding_builder.py:36-47 | segments come in strictly increasing field order, carry their field's content, and occur exactly for the fields that append |
| EmbeddingBuilder.Segments | src/services/embedding_builder.py:36-47 | the segments follow the order name, level, legal_basis, eligibility, validity; each carries its cleaned content; a field has a segment exactly when it is present |
| EmbeddingBuilder.BuildDocument | src/services/embedding_builder.py:24-52 | the passage is "" exactly when no field is present; otherwise it is "passage: " followed by the rendered segments joined by " \| " |
| EmbeddingBuilder.SinglePresentField | src/services/embedding_builder.py:36-47 | with a single present field the document has that one segment |
| EmbeddingBuilder.BlankSubjectKeepsEligibility | src/services/embedding_builder.py:42-52 | blank but non-empty subjects and no other field give exactly "passage: eligibility: " |
| EmbeddingBuilder.EligibilityOnlyPassage | src/services/embedding_builder.py:42-52 | a document whose only segment is eligibility with some content gives "passage: eligibility: " followed by that content |
| EmbeddingBuilder.BuildQuery | src/services/embedding_builder.py:63-71 | the query is "" exactly for blank input; otherwise it is "query: " followed by the normalised input with the input's words |
| EmbeddingBuilder.BuildQueryIgnoresLayout | src/services/embedding_builder.py:68-71 | two inputs with the same words give the same query |
| EmbeddingBuilder.BuildQueryOfNormalized | src/services/embedding_builder.py:68-71 | normalising the input first does not change the query |
| EmbeddingErrors.StatusCode | src/core/exceptions/embeddings.py:14-38 | validation is 400, not-found is 404 and processing is 500, each in both directions |
| EmbeddingErrors.Raise | src/core/exceptions/embeddings.py:19-38 | an error keeps its kind, and its detail is the given one or the kind's default |
| EmbeddingErrors.DefaultDetailsDistinct | src/core/exceptions/embeddings.py:19-37 | no two kinds share a default detail |
| EmbeddingErrors.ClientErrorKinds | src/core/exceptions/embeddings.py:20-38 | only a processing error is a 5xx status; the other two are 4xx |
| AllowanceErrors.StatusCode | src/core/exceptions/allowances.py:18-37 | a validation error is 400 and a parsing error is 502, in both directions |
| AllowanceErrors.Raise | src/core/exceptions/allowances.py:25-37 | both kinds are one error type; the detail is the given one or "Invalid allowance data." / "Failed to parse allowances from source." |
| AllowanceErrors.ServerErrorKinds | src/core/exceptions/allowances.py:36-37 | only a parsing error is a 5xx status |
| EmbeddingRepository.Upsert | src/repositories/allowance_embedding_repository.py:29-53 | afterwards the id has exactly the given embedding and model, every other record is unchanged, and the returned row is the one written |
| EmbeddingRepository.UpsertIdempotent | src/repositories/allowance_embedding_repository.py:34-53 | upserting twice with the same arguments equals upserting once |
| EmbeddingRepository.UpsertLastWriteWins | src/repositories/allowance_embedding_repository.py:41-47 | the conflict update overwrites: the second upsert of an id decides its record |
| EmbeddingRepository.UpsertCommutes | src/repositories/allowance_embedding_repository.py:34-53 | upserts of different ids commute |
| EmbeddingRepository.ListWithoutEmbeddings | src/repositories/allowance_embedding_repository.py:55-66 | an allowance is listed exactly when it is in the catalogue and has no record |
| EmbeddingRepository.ListWithoutEmbeddingsAppend | src/repositories/allowance_embedding_repository.py:60-66 | the anti-join keeps catalogue order |
| EmbeddingRepository.ListWithoutEmbeddingsEmpty | src/repositories/allowance_embedding_repository.py:60-66 | when every allowance has a record, nothing is listed |
| EmbeddingRepository.Joined | src/repositories/allowance_embedding_repository.py:76 | the inner join holds exactly the catalogue allowances with a record, each scored with its embedding's distance to the query |
| EmbeddingRepository.RankedHits | src/repositories/allowance_embedding_repository.py:77 | the joined hits are reordered (a permutation) by non-decreasing distance |
| EmbeddingRepository.ClosestPrefix | src/repositories/allowance_embedding_repository.py:77-78 | the first n of a distance-ordered list stay ordered, come from it, and every hit left out is at least as far as every hit kept |
| EmbeddingRepository.ClosestHits | src/repositories/allowance_embedding_repository.py:73-83 | at most `limit` hits, ordered by distance, the closest ones of the join; each one is a catalogue allowance with a record, scored with its own distance |
| EmbeddingRepository.SearchByVector | src/repositories/allowance_embedding_repository.py:68-83 | a negative limit is an error (SQL rejects it); otherwise the result is the closest `limit` hits |
| EmbeddingService.IndexAllowance | src/services/allowance_embedding_service.py:24-48 | the passage is built from the allowance's fields, with the stored subjects column passed as it is; an empty document or empty embedding leaves the store as it was; a vectoriser failure propagates; otherwise the allowance's record becomes (embedding, model name) and no other record changes |
| EmbeddingService.DocumentOf | src/services/allowance_embedding_service.py:29-35 | the builder gets the allowance's name, law title, level and validity period unchanged, and its stored subjects string as the sequence of its characters, each a string of its own |
| EmbeddingService.StoredSubjectsByCharacter | src/services/embedding_builder.py:42-45 | with a stored subjects string, the eligibility segment is present exactly when the string is non-empty, and its subjects are the string's characters with each whitespace character normalised to the empty string |
| EmbeddingService.CommaJoinedSubjectsPassage | src/services/allowance_embedding_service.py:29-35 | an allowance whose only field is the stored subjects "a,b" gets the passage "passage: eligibility: a; ,; b" |
| EmbeddingService.EmptyDocumentSkipsVectorizer | src/services/allowance_embedding_service.py:37-38 | with an empty document the vectoriser is not consulted: any two vectorisers give the same unchanged store |
| EmbeddingService.IndexMany | src/services/allowance_embedding_service.py:50-56 | at most the listed allowances are processed; there is no error exactly when all of them were; only the listed allowances' records change and no record disappears |
| EmbeddingService.IndexManyStopsAtFailure | src/services/allowance_embedding_service.py:55-56 | a batch that stops after k allowances left the store that indexing the first k alone gives, and indexing allowance k from it fails with the reported error |
| EmbeddingService.IndexManyAppend | src/services/allowance_embedding_service.py:55-56 | indexing `xs + ys` indexes `xs`, then `ys` from the resulting store unless `xs` failed: list order, one at a time |
| EmbeddingService.IndexManyOne | src/services/allowance_embedding_service.py:55-56 | a batch of one is `index_allowance`: its store and one processed on success, its error and none processed on failure |
| EmbeddingService.IndexManyCompletes | src/services/allowance_embedding_service.py:55-56 | a completed batch has a record for every indexable allowance in it |
| EmbeddingService.IndexMissing | src/services/allowance_embedding_service.py:58-67 | with nothing missing nothing happens; otherwise the store is exactly that of `index_many` over the missing allowances, the run fails exactly when that batch fails and with its error, success returns the count of missing allowances, and existing records are never touched |
| EmbeddingService.IndexMissingConverges | src/services/allowance_embedding_service.py:58-67 | after a successful run, an allowance still without a record is one whose document or embedding is empty |
| EmbeddingService.IndexMissingAsWritten | src/services/allowance_embedding_service.py:58-67 | the run as the code has it: the store is that of the intended run, nothing is returned, and the only outcome the caller sees is the batch's vectoriser failure, exactly when the intended run fails; with nothing missing the store is unchanged |
| VectorizationService.VectorizeUserInput | src/services/allowance_vectorization_service.py:31-58 | blank input is a validation error; a raising vectoriser or an empty embedding is a processing error; otherwise the result is the vectoriser's output for the built query |
| VectorizationService.BlankInputSkipsVectorizer | src/services/allowance_vectorization_service.py:41-43 | blank input fails without consulting the vectoriser |
| VectorizationService.VectorizeIgnoresLayout | src/services/allowance_vectorization_service.py:41-46 | two inputs with the same words vectorise identically |
| VectorizationService.Unprocessed | src/services/allowance_vectorization_service.py:87 | an id is reported missing exactly when it was requested and not processed |
| VectorizationService.UnprocessedAppend | src/services/allowance_vectorization_service.py:87 | the missing ids keep request order |
| VectorizationService.VectorizeAllowances | src/services/allowance_vectorization_service.py:60-88 | no ids is a validation error and not-found holds exactly when ids are given but none matches, both with the store untouched; otherwise the store is that of `index_many` over the looked-up allowances, success holds exactly when that batch completes, and a failure is a processing error naming the allowance at which the batch stopped; success reports the looked-up ids as processed; records of unrequested ids never change |
| VectorizationService.VectorizeStopsAtFailure | src/services/allowance_vectorization_service.py:78-84 | a processing error names the first allowance whose indexing raised, after the ones before it were indexed |
| VectorizationService.VectorizeCompletes | src/services/allowance_vectorization_service.py:77-88 | after a successful run, every requested catalogue allowance with a non-empty document and embedding has a record |
| VectorizationService.VectorizeReportsPartition | src/services/allowance_vectorization_service.py:85-88 | every requested id is either processed (it names a catalogue allowance) or missing, never both |
| VectorizationService.VectorizeMissingAllowances | src/services/allowance_vectorization_service.py:90-103 | it is not-found exactly when nothing was missing; when `index_missing` succeeds with something missing it returns that count; otherwise the positive count processed, and existing records stay |
| VectorizationService.VectorizeMissingAsWritten | src/services/allowance_vectorization_service.py:99-103 | the call as the code has it: the store is that of the intended call, it fails exactly when `index_missing` fails and with the same vectoriser error (never its own not-found), and on success it returns `None` |
| VectorizationService.NoOpRunNotReported | src/services/allowance_vectorization_service.py:99-103 | on a catalogue with every allowance indexed, the call as written returns `None` with the store unchanged while the intended call raises not-found |
| VectorizationService.AsWrittenNeverNotFound | src/services/allowance_vectorization_service.py:99-101 | the call as written never raises its own not-found error: every failure is a vectoriser failure |
| VectorSearch.ScoreOne | src/services/vector_search_service.py:33-40 | a result carries the allowance's id and name; its score is in [0,1] whenever the ratio is |
| VectorSearch.HaystackCases | src/services/vector_search_service.py:34 | the haystack is name and npa_name joined by one space, leaving out the empty ones |
| VectorSearch.Slice | src/services/vector_search_service.py:43 | `scored[:limit]` is a prefix of length min(limit, n), or n + limit for a negative limit |
| VectorSearch.Ranking | src/services/vector_search_service.py:42 | the sorted results are a permutation of the scored ones with non-increasing scores |
| VectorSearch.RankingStable | src/services/vector_search_service.py:42 | results with equal scores keep repository order |
| VectorSearch.Search | src/services/vector_search_service.py:17-43 | a blank query gives []; otherwise a prefix of the ranking, min(limit, n) long for a non-negative limit, sorted by non-increasing score |
| VectorSearch.SearchFromListed | src/services/vector_search_service.py:32-40 | each result comes from one listed allowance; scores are in [0,1] when the ratio is |
| VectorSearch.BlankQueryIgnoresStore | src/services/vector_search_service.py:26-28 | a blank query does not depend on the repository |
| VectorSearch.SearchIgnoresQueryCase | src/services/vector_search_service.py:26-37 | queries that agree after strip and lower-casing give the same results |
| VectorSearch.SearchDistinct | src/services/vector_search_service.py:32-43 | with distinct ids in the repository, no allowance appears twice in the results |
| Sorting.SortDesc | src/services/vector_search_service.py:42 | the sort is a permutation and is sorted by non-increasing key |
| Sorting.SortDescStable | src/services/vector_search_service.py:42 | for every key, the elements with that key keep their input order |
| Sorting.InsertStable | src/services/vector_search_service.py:42 | inserting at the front of its key class keeps every key class in order |
| Sorting.PrefixDominates | src/services/vector_search_service.py:42-43 | every kept element scores at least as high as every cut one |
| AllowanceRepository.ListAll | src/repositories/allowance_repository.py:17-26 | every stored row, each once, newest first |
| AllowanceRepository.Create | src/repositories/allowance_repository.py:28-38 | exactly one row is added with a fresh id; the others are unchanged |
| AllowanceRepository.ReplaceAll | src/repositories/allowance_repository.py:40-52 | afterwards the table holds exactly the given rows in order, with fresh ids, and returns them |
| AllowanceRepository.ReplaceAllForgets | src/repositories/allowance_repository.py:47-49 | nothing earlier survives: the result does not depend on the old rows |
| AllowanceRepository.CreateThenList | src/repositories/allowance_repository.py:24-38 | a created row is among the listed rows |
| AllowanceService.CleanText | src/services/allowance_service.py:80-88 | the cleaned text is normalised, keeps the words and visible characters, and is empty exactly for blank input |
| AllowanceService.CleanTextIdempotent | src/services/allowance_service.py:88 | cleaning twice is cleaning once |
| AllowanceService.CleanSubjectsEmpty | src/services/allowance_service.py:100 | no subject survives exactly when every subject is blank |
| AllowanceService.CleanSubjects | src/services/allowance_service.py:100 | the cleaned non-blank subjects, in order, none left out |
| AllowanceService.NormalizeSubjects | src/services/allowance_service.py:90-102 | `None` or only blank subjects give `None`; otherwise the non-empty cleaned subjects joined by "," |
| AllowanceService.SplitOnJoin | src/services/allowance_service.py:102 | splitting a comma join of comma-free parts on "," gives the parts back |
| AllowanceService.NormalizeSubjectsRoundTrip | src/services/allowance_service.py:97-102 | for comma-free subjects the stored column does not start or end with ",", has no ",,", and splits back into the cleaned subjects |
| AllowanceService.CommaSubjectBreaksShape | src/services/allowance_service.py:100-102 | the subject "," is stored as ",", which splits into two empty subjects |
| AllowanceService.CreateAllowance | src/services/allowance_service.py:29-51 | it is a validation error, with nothing stored, exactly when the cleaned name or NPA number is empty; otherwise one row with the cleaned values is added |
| AllowanceService.CreateAllowanceKeepsValid | src/services/allowance_service.py:43-49 | creating keeps the row ids unique |
| AllowanceService.CompleteIffAccepted | src/services/allowance_service.py:67-73 | an item is complete exactly when its cleaned name and number are non-empty |
| AllowanceService.CleanAll | src/services/allowance_service.py:65-75 | the items are cleaned in order; the loop finishes exactly when every item is accepted |
| AllowanceService.ParseAndReplace | src/services/allowance_service.py:53-78 | a parser failure propagates; an empty parse or an incomplete item is a parsing error; a non-empty parse whose items are all accepted succeeds; failures leave the table untouched; success stores exactly the cleaned items in order, each with the cleaned name, number and subjects |
| AllowanceService.IncompleteItemRejectsParse | src/services/allowance_service.py:72-73 | one incomplete item rejects the whole parse before anything is replaced |
| Vectorizer.EmbedText | src/services/vectorizer.py:51-69 | blank text gives [] without the encoder; the encoder sees the stripped text; a size other than the dimension is an error; a returned non-empty vector has the dimension's length |
| Vectorizer.AsPort | src/services/vectorizer.py:43-49 | the interface reports the configured model name and embeds with `embed_text` |
| Vectorizer.BlankTextSkipsEncoder | src/services/vectorizer.py:52-54 | blank text gives [] whatever the encoder |
| Vectorizer.EmbedStrippedText | src/services/vectorizer.py:52 | embedding the stripped text equals embedding the text |
| Vectorizer.EncoderSeesStrippedText | src/services/vectorizer.py:52-61 | the result depends on the encoder only through its output on the stripped text |
| Reranker.New | src/services/reranker.py:13-25 | a new reranker keeps its configuration and has no model |
| Reranker.EnsureModelLoaded | src/services/reranker.py:47-69 | a cached model is returned as is; otherwise a load that times out (only with a positive timeout) or raises leaves no model, and a completed load is cached |
| Reranker.WarmUp | src/services/reranker.py:27-32 | warm-up succeeds exactly when a model is cached afterwards; a failure changes nothing |
| Reranker.Score | src/services/reranker.py:34-45 | no documents gives [] without loading; otherwise one score per document, from the query paired with it, in document order |
| Reranker.EmptyScoreSkipsLoad | src/services/reranker.py:39-40 | with no documents the load attempt is irrelevant |
| Reranker.LoadedModelReused | src/services/reranker.py:48-49 | a loaded model is reused whatever a later load would do |
| Reranker.WarmUpThenScore | src/services/reranker.py:27-45 | after a successful warm-up, scoring never loads again |
| Reranker.FailedLoadRetries | src/services/reranker.py:59-65 | a failed or timed-out load caches nothing, so the next call retries and can succeed |
| Reranker.NoTimeoutWithoutPositiveLimit | src/services/reranker.py:60-63 | without a positive timeout the load's duration is irrelevant |
| ParserBase.GatheredAppend | src/parsers/base.py:66-78 | gathering and counting distribute over concatenation: results are taken in source order |
| ParserBase.FailureIsolated | src/parsers/base.py:64-78 | a failing source contributes nothing and removes nothing from the other sources |
| ParserBase.Aggregate | src/parsers/base.py:66-78 | the allowances are the successful sources' results in order, and successes plus failures equal the number of sources |
| ParserBase.ParseEach | src/parsers/base.py:63-64 | one result per source, in source order |
| ParserBase.Run | src/parsers/base.py:43-90 | a discovery failure propagates, no sources gives [], otherwise the gathered successful results |
| Config.FromEnvironment | src/config.py:13-17 | each field comes from its variable or its default; the port must parse as an integer |
| Config.DefaultSettings | src/config.py:13-17 | with no variable set the settings are root / password / localhost / 3306 / allowances |
| Config.PortFromEnvironment | src/config.py:16 | a port given as `str(p)` becomes `p` |
| Config.Url | src/config.py:19-30 | the URL starts with "mysql+aiomysql://", ends with "?charset=utf8mb4", and the rest is the authority |
| Config.SyncUrl | src/config.py:32-43 | the URL starts with "mysql+pymysql://", ends with "?charset=utf8mb4", and the rest is the authority |
| Config.UrlText | src/config.py:26-30 | the URL is the scheme, user, ":", password, "@", host, ":", port, "/", name and "?charset=utf8mb4" |
| Config.SyncUrlText | src/config.py:39-43 | the same string with the synchronous scheme |
| Config.UrlsDifferOnlyInScheme | src/config.py:19-43 | the two URLs agree after their schemes and are different strings |
| Config.PortRoundTrip | src/config.py:16-29 | the port's digits follow the host and its colon in the URL, and they parse back to the port |
| DomRfCatalog.CollectProgramUrls | src/parsers/domrf.py:78-102 | the collected set holds exactly the present `href`s that are card links |
| DomRfCatalog.DiscoverSources | src/parsers/domrf.py:50-76 | nothing when the catalogue does not load; otherwise exactly the card links among the catalogue's anchors, all on the catalogue host |
| DomRfCatalog.CardOfEnding | src/parsers/domrf.py:115-117 | a link ending in "/catalog", up to trailing slashes, is not a card |
| DomRfCatalog.CardOfPath | src/parsers/domrf.py:119-124 | once host and "/catalog/" occur, a link is a card exactly when the slash-stripped text after the last "/catalog/" is non-empty and does not start with "?" |
| DomRfCatalog.CardUnderCatalog | src/parsers/domrf.py:104-124 | the catalogue URL plus a slash-free segment, with an optional final slash, is a card exactly when the segment neither starts with "?" nor is "catalog" |
| DomRfCatalog.CatalogRootIsNotCard | src/parsers/domrf.py:104-124 | the catalogue page itself, with or without its final slash, is not a card |
| DomRfCatalog.LastPieceAfter | src/parsers/domrf.py:123 | `split(sep)[-1]` is the text after the last occurrence of the separator |
| DomRfCatalog.SlugOfSound | src/parsers/domrf.py:304 | a slug the scanner reports is one the pattern `/catalog/([a-z0-9\-_]+)/?$` matches with |
| DomRfCatalog.SlugOfComplete | src/parsers/domrf.py:304 | every slug the pattern captures is the one the scanner reports |
| DomRfCatalog.FallbackIdOfSlug | src/parsers/domrf.py:305-308 | a slug of at most 3 characters gives ""; otherwise "CATALOG-" and an upper-case slug, 12 to 38 characters long |
| DomRfCatalog.GenerateFallbackId | src/parsers/domrf.py:296-310 | the identifier is "" or "CATALOG-" with at most 30 upper-cased slug characters, 12 to 38 characters in all |
| DomRfCatalog.FallbackIdOfMatch | src/parsers/domrf.py:304-310 | a match on the lower-cased URL gives "CATALOG-" and its first 30 slug characters upper-cased when the slug is longer than 3, else "" |
| DomRfCatalog.FallbackIdNeedsMatch | src/parsers/domrf.py:304-310 | a non-empty identifier needs a match with a slug longer than 3 |
| DomRfCatalog.ExtractProgramName | src/parsers/domrf.py:191-213 | the title when its normalised text is longer than 5, else the `h1` under the same rule, else "" |
| DomRfCatalog.ExtractLawNumber | src/parsers/domrf.py:258-271 | "" when no pattern matches; whenever some pattern matches, the normalised match of the first one that does |
| DomRfCatalog.CutName | src/parsers/domrf.py:290-292 | a law name is a prefix of the normalised match, at most 500 characters, still longer than 30 |
| DomRfCatalog.FullLawName | src/parsers/domrf.py:273-294 | the first pattern whose normalised match is longer than 30 characters gives the name, cut to 500; none gives `None` |
| DomRfCatalog.FallbackRegulation | src/parsers/domrf.py:241-256 | the page's law number; the full name is searched only when a number was found |
| DomRfCatalog.RegulationInfo | src/parsers/domrf.py:215-239 | the link text's number when it has one, with the text as name only when longer than 20 characters; otherwise the page-wide fallback |
| DomRfCatalog.TagText | src/parsers/domrf.py:325-327 | a kept tag is normalised and longer than 2 characters |
| DomRfCatalog.ExtractProgramTags | src/parsers/domrf.py:312-333 | the kept tags when there are any: the normalised tag texts longer than 2, in page order, none left out; the participant fallback only when none survives |
| DomRfCatalog.ProgramTagsFiltered | src/parsers/domrf.py:320-333 | every tag taken is normalised and longer than 2; the fallback is used exactly when no tag text is long enough |
| DomRfCatalog.ParticipantText | src/parsers/domrf.py:357-358 | a kept participant is normalised and has 3 < length < 100 |
| DomRfCatalog.FirstWithParticipants | src/parsers/domrf.py:346-362 | the first header followed by participants: every earlier one yields none |
| DomRfCatalog.ParticipantsAfter | src/parsers/domrf.py:346-360 | no participants unless the header mentions them and a list follows; otherwise the normalised entries of length 4 to 99 among its first ten items, in order, none left out |
| DomRfCatalog.ParticipantsFallback | src/parsers/domrf.py:335-364 | at most 10 participants from the first header that yields any; `None` exactly when none does |
| DomRfCatalog.ParticipantsInRange | src/parsers/domrf.py:356-359 | every participant returned is normalised and has 3 < length < 100 |
| DomRfCatalog.ParseProgramCard | src/parsers/domrf.py:162-189 | `None` exactly when the name is empty or both the law number and the fallback identifier are; the fallback is used only without a law number |
| DomRfCatalog.ParseSource | src/parsers/domrf.py:126-160 | at most one allowance per card; none when the page does not load or the card has none |
| DomRfSitemap.RootUrl | app/parsers/domrf.py:19-21 | `rstrip("/")`: the root never ends with "/", is a prefix of the given URL, and only slashes were removed |
| DomRfSitemap.RootUrlIdempotent | app/parsers/domrf.py:21 | trimming the root again changes nothing |
| DomRfSitemap.SupportLinksMembers | app/parsers/domrf.py:37-41 | a URL is kept exactly when it is a present, non-empty `loc` whose lower-cased text contains a keyword |
| DomRfSitemap.ChosenAppend | app/parsers/domrf.py:38-41 | the filter keeps sitemap order: it distributes over concatenation |
| DomRfSitemap.FetchSources | app/parsers/domrf.py:24-44 | never empty; a failed sitemap request or no matching URL gives exactly [root]; otherwise the matching URLs in sitemap order |
| DomRfSitemap.SpaceAfterSign | app/parsers/domrf.py:117 | after `replace("№", "№ ")` every "№" is followed by a space |
| DomRfSitemap.SpaceAfterSignRoundTrip | app/parsers/domrf.py:117 | removing the space after each "№" undoes the replacement |
| DomRfSitemap.NormalizeNpa | app/parsers/domrf.py:109-119 | the number is whitespace-normalised, keeps every visible character, is empty exactly for blank input, has the words of the collapsed text with a space after each sign, and is just the collapsed text when there is no sign |
| DomRfSitemap.NormalizeNpaSpacing | app/parsers/domrf.py:116-119 | every "№" before the last character is followed by one space, and whatever comes after that space is visible |
| DomRfSitemap.NormalizeSubjects | app/parsers/domrf.py:121-129 | `None` exactly when every entry is blank; otherwise the normalised non-blank entries, in order, none left out |
| DomRfSitemap.FindNpaNumber | app/parsers/domrf.py:131-142 | "" exactly when no "№" starts a number; otherwise "№", an optional space and a maximal run of number characters |
| DomRfSitemap.FindNpaNumberLeftmost | app/parsers/domrf.py:138-142 | a found number is the text at the leftmost position where one starts, taken to the end of its run |
| DomRfSitemap.FindSubjects | app/parsers/domrf.py:144-156 | at most 5 subjects, each non-empty, normalised and shorter than 240 characters: the kept texts among the first five elements, in order, none left out |
| DomRfSitemap.HeaderCandidate | app/parsers/domrf.py:84-91 | a header gives a candidate exactly when its normalised text contains a number; the name is that text |
| DomRfSitemap.SpanCandidate | app/parsers/domrf.py:92-97 | a law span gives a candidate exactly when its normalised number and text are both non-empty |
| DomRfSitemap.Accept | app/parsers/domrf.py:61-72 | a candidate is kept exactly when its cleaned name and cleaned number are non-empty; the name is normalised with the candidate's words, the number is `_normalize_npa` of the candidate's, and both keep their visible characters |
| DomRfSitemap.ParseSource | app/parsers/domrf.py:46-73 | a failed request gives []; for a loaded page, the accepted allowances of the extracted candidates, in order, none left out; every allowance has a non-empty name and number |
| DomRfSitemap.ExtractCandidates | app/parsers/domrf.py:75-98 | the header candidates in document order, none left out, then the span candidates in document order, none left out |
| DomRfSitemap.ExtractedAreAccepted | app/parsers/domrf.py:61-98 | every extracted candidate passes the acceptance rule |
| DomRfSitemap.ParseSourceKeepsCandidates | app/parsers/domrf.py:59-73 | parsing a loaded page keeps one allowance per extracted candidate, the k-th allowance being the k-th candidate accepted |

## Left out

- Concurrency is not modelled: the `asyncio` lock, semaphore, `gather`, `to_thread` and `wait_for`. Everything runs sequentially. `gather` keeps source order, so the aggregation in `run` is modelled in that order.
- ML inference and floats are not modelled. Embeddings are sequences of reals. The encoder, the cross-encoder `predict`, the cosine distance and the `SequenceMatcher` ratio are parameters. Only the [0,1] range of the ratio is assumed, and only where a lemma says so.
- I/O is left out: HTTP requests, Selenium navigation, sitemap XML parsing and BeautifulSoup DOM traversal. The model receives the values those calls return.
- The random delay and the user-agent rotation of src/parsers/base.py are left out (`_bounded_parse`, `_random_delay`, `_create_client`). They do not affect any result.
- The asynchronous base parser of the second scraper (app/parsers/base.py) is not modelled separately. It flattens the results of `gather`, which app/parsers/base.py:51 calls without `return_exceptions`, so one failing page fails the whole run. The model does not carry that failure path for this parser.
- Logging is left out.
- The FastAPI routes, the dependency wiring, the ORM models and the migrations are not part of this model.
- The uniqueness of `allowance_id` in the embedding table is the key of the store map.
- `list_by_ids` is not part of this model. It is taken to return the catalogue allowances whose id is requested, in catalogue order.
- The SQL order among equal distances, or equal `created_at` values, is not fixed by the database. The model fixes one order.
- The order of `list(urls)` over a Python set is arbitrary, so `CollectProgramUrls` returns a set.
- DomRfCatalog.ExtractLawNumber: the three law-number regular expressions are abstract matchers. They return the first match's text or nothing.
- DomRfCatalog.FullLawName: the law-name expressions are abstract matchers in the same way.
- DomRfCatalog.ParticipantsFallback: `find_next("ul")` and `find_all("li", limit=10)` are taken as given inputs: the list after each header, cut to 10 items.
- DomRfSitemap.FindSubjects: `find_all_next(["p","li"], limit=5)` is taken as the texts of the next five such elements.
- Text.Lower: lower-casing covers ASCII letters and the Cyrillic capitals U+0400..U+042F only. Other characters are kept as they are.
- Text.Upper: upper-casing covers ASCII letters only. It is applied only to catalogue slugs, which are ASCII.
- Text.ParseInt: `int()` accepts surrounding whitespace, a sign and ASCII digits. Underscores and non-ASCII digits are not accepted.
- Text.Split: whitespace is the set of characters for which Python's `str.isspace()` holds. The regular expression `\s` in the scrapers is taken to match the same set.
- AllowanceService.NormalizeSubjectsRoundTrip: the comma round trip is stated only for subjects that contain no comma, because a subject with a comma breaks it (`CommaSubjectBreaksShape`).
- Vectorizer.EmbedText: only a `ValueError` from the size check and a failure of the encoder are modelled as raising.
- EmbeddingService.IndexMissing: it returns the number of allowances processed instead of `None`, because the caller in src/services/allowance_vectorization_service.py:99-101 compares that value with 0. The code as written is `EmbeddingService.IndexMissingAsWritten` (see "## Findings").

## Findings

| source | as written | input that shows it | evidently intended | confidence | as-written member | corrected member |
|---|---|---|---|---|---|---|
| src/services/allowance_vectorization_service.py:99-103 | `index_missing` (src/services/allowance_embedding_service.py:58-67) returns `None`, so `created == 0` never holds: the not-found error is never raised and the call returns `None` | a catalogue whose every allowance already has an embedding (`VectorizationService.NoOpRunNotReported`) | a run with nothing to index raises not-found; otherwise the call returns the number of allowances indexed | not executed | VectorizationService.VectorizeMissingAsWritten | VectorizationService.VectorizeMissingAllowances |

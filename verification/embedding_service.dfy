/** Embedding synchronisation (src/services/allowance_embedding_service.py):
    build an allowance's passage, vectorise it and upsert it, one allowance
    at a time. Each upsert commits on its own, so a failure part-way
    through a batch keeps the records written before it; every operation
    therefore returns the store together with its outcome. The service's
    injected collaborators, the vectoriser and the document builder, are
    carried by `Indexer`; `Standard` wires in the passage builder of
    `EmbeddingBuilder`. */
module EmbeddingService {

  import opened Wrappers
  import opened Text
  import opened Catalog
  import opened EmbeddingBuilder
  import opened Vectorizer
  import opened EmbeddingRepository

  /** Iterating over a string in Python: each character as a string of
      its own. */
  function Characters(s: string): (r: seq<string>)
    ensures |r| == |s|
    ensures forall i :: 0 <= i < |s| ==> r[i] == [s[i]]
  {
    seq(|s|, i requires 0 <= i < |s| => [s[i]])
  }

  /** The `build_document` arguments taken from an allowance. The stored
      subjects column is passed as it is, so `build_document` iterates over
      its characters: each character is one subject. */
  function DocumentOf(a: Allowance): (d: DocumentInput)
    ensures d.name == a.name && d.npaName == a.npaName && d.level == a.level
    ensures d.validityPeriod == a.validityPeriod
    ensures d.subjects.Some? <==> a.subjects.Some?
    ensures a.subjects.Some? ==>
      |d.subjects.value| == |a.subjects.value|
      && forall i :: 0 <= i < |a.subjects.value| ==> d.subjects.value[i] == [a.subjects.value[i]]
  {
    var subjects := if a.subjects.Some? then Some(Characters(a.subjects.value)) else None;
    DocumentInput(a.name, a.npaName, a.level, subjects, a.validityPeriod)
  }

  /** The cleaned subjects of a stored column, one per character: a visible
      character is kept as itself, a whitespace character becomes "". */
  function CharacterSubjects(s: string): (r: seq<string>)
    ensures |r| == |s|
  {
    seq(|s|, i requires 0 <= i < |s| => if IsSpace(s[i]) then "" else [s[i]])
  }

  /** The eligibility segment of an allowance comes from the characters of
      its stored subjects: it is present exactly when the column is a
      non-empty string, and it lists one cleaned subject per character. */
  lemma StoredSubjectsByCharacter(a: Allowance)
    requires a.subjects.Some?
    ensures Present(DocumentOf(a), Eligibility) <==> a.subjects.value != ""
    ensures CleanedSubjects(DocumentOf(a).subjects.value) == CharacterSubjects(a.subjects.value)
  {
    var s := a.subjects.value;
    var xs := DocumentOf(a).subjects.value;
    assert s != "" ==> xs[0] != "";
    CleanedCharacters(s, xs);
  }

  /** Cleaning the one-character subjects of `s`. */
  lemma CleanedCharacters(s: string, xs: seq<string>)
    requires |xs| == |s| && forall i :: 0 <= i < |s| ==> xs[i] == [s[i]]
    ensures CleanedSubjects(xs) == CharacterSubjects(s)
  {
    NonEmptyOnlyKeepsAll(xs);
    var cleaned := NormalizeEach(xs);
    assert CleanedSubjects(xs) == cleaned;
    forall i | 0 <= i < |s| ensures cleaned[i] == CharacterSubjects(s)[i] {
      NormalizeOneCharacter(s[i]);
    }
  }

  /** A list without empty strings is kept whole by the raw filter. */
  lemma {:induction false} NonEmptyOnlyKeepsAll(xs: seq<string>)
    requires forall i :: 0 <= i < |xs| ==> xs[i] != ""
    ensures NonEmptyOnly(xs) == xs
  {
    if |xs| > 0 {
      assert forall i :: 0 <= i < |xs[1..]| ==> xs[1..][i] == xs[i + 1];
      NonEmptyOnlyKeepsAll(xs[1..]);
      assert xs == [xs[0]] + xs[1..];
    }
  }

  /** A one-character subject normalises to itself, or to "" when the
      character is whitespace. */
  lemma NormalizeOneCharacter(c: char)
    ensures Normalize(Some([c])) == if IsSpace(c) then "" else [c]
  {
    if !IsSpace(c) {
      CollapseUnique([c], [c]);
    }
  }

  /** An allowance whose only content is a non-empty subjects column has
      the eligibility segment alone, listing one subject per character. */
  lemma OnlySubjectsSegments(a: Allowance)
    requires a.name == "" && a.npaName.None? && a.level.None? && a.validityPeriod.None?
    requires a.subjects.Some? && a.subjects.value != ""
    ensures Segments(DocumentOf(a)) == [Segment(Eligibility, Join(CharacterSubjects(a.subjects.value), "; "))]
  {
    var d := DocumentOf(a);
    StoredSubjectsByCharacter(a);
    assert Normalize(Some(d.name)) == "";
    SinglePresentField(d, Eligibility);
  }

  /** The stored column "a,b" gives three subjects, "a", "," and "b": the
      comma is a subject of its own. */
  lemma CommaJoinedSubjectsPassage(id: AllowanceId)
    ensures BuildDocument(DocumentOf(Allowance(id, "", None, None, Some("a,b"), None))) == "passage: eligibility: a; ,; b"
  {
    var a := Allowance(id, "", None, None, Some("a,b"), None);
    CommaJoinedSegments(a);
    EligibilityOnlyPassage(DocumentOf(a), "a; ,; b");
    CommaJoinedLiterals();
  }

  /** The stored column "a,b" gives one segment whose content joins its
      three characters. */
  lemma CommaJoinedSegments(a: Allowance)
    requires a.name == "" && a.npaName.None? && a.level.None? && a.validityPeriod.None?
    requires a.subjects == Some("a,b")
    ensures Segments(DocumentOf(a)) == [Segment(Eligibility, "a; ,; b")]
  {
    OnlySubjectsSegments(a);
    CommaCharacters();
  }

  lemma CommaCharacters()
    ensures Join(CharacterSubjects("a,b"), "; ") == "a; ,; b"
  {
    assert CharacterSubjects("a,b") == ["a", ",", "b"];
    JoinThree("a", ",", "b", "; ");
    CommaJoinedLiterals();
  }

  lemma JoinThree(x: string, y: string, z: string, sep: string)
    ensures Join([x, y, z], sep) == x + sep + (y + sep + z)
  {
    assert [x, y, z][1..] == [y, z];
    assert [y, z][1..] == [z];
    assert Join([z], sep) == z;
    assert Join([y, z], sep) == y + sep + z;
  }

  lemma CommaJoinedLiterals()
    ensures "a" + "; " + ("," + "; " + "b") == "a; ,; b"
    ensures "passage: eligibility: " + "a; ,; b" == "passage: eligibility: a; ,; b"
  {
  }

  /** The service's collaborators: the vectoriser and the passage
      builder. */
  datatype Indexer = Indexer(port: Port, build: DocumentInput -> string)

  /** The service as the application wires it. */
  function Standard(port: Port): (ix: Indexer)
    ensures ix.port == port
    ensures forall d :: ix.build(d) == BuildDocument(d)
  {
    Indexer(port, BuildDocument)
  }

  /** The allowance has a non-empty passage and the vectoriser gives it a
      non-empty embedding: indexing it writes a record. */
  predicate Indexable(ix: Indexer, a: Allowance) {
    var doc := ix.build(DocumentOf(a));
    doc != "" && ix.port.embed(doc).Success? && ix.port.embed(doc).value != []
  }

  /** The records of identifiers outside `ids` are the same in both
      stores. */
  predicate SameExcept(s: Store, t: Store, ids: set<AllowanceId>) {
    && (forall k :: k in s && k !in ids ==> k in t && t[k] == s[k])
    && (forall k :: k in t && k !in ids ==> k in s)
  }

  // ---------------------------------------------------------------------------
  // index_allowance
  // ---------------------------------------------------------------------------

  /** `index_allowance`: an empty passage or an empty embedding writes
      nothing; otherwise the allowance's record becomes the embedding
      tagged with the vectoriser's model name. A vectoriser failure
      propagates, and nothing is written. */
  function IndexAllowance(store: Store, ix: Indexer, a: Allowance): (r: Result<Store, VectorizerError>)
    ensures var doc := ix.build(DocumentOf(a));
      && (doc == "" ==> r == Success(store))
      && (doc != "" && ix.port.embed(doc).Failure? ==> r == Failure(ix.port.embed(doc).error))
      && (doc != "" && ix.port.embed(doc) == Success([]) ==> r == Success(store))
    ensures Indexable(ix, a) ==>
      var e := ix.port.embed(ix.build(DocumentOf(a))).value;
      r.Success? && a.id in r.value && r.value[a.id] == EmbeddingRecord(e, ix.port.modelName)
    ensures r.Success? ==> SameExcept(store, r.value, {a.id}) && store.Keys <= r.value.Keys
    ensures r.Success? && !Indexable(ix, a) ==> r.value == store
  {
    var doc := ix.build(DocumentOf(a));
    if doc == "" then Success(store)
    else
      match ix.port.embed(doc)
      case Failure(e) => Failure(e)
      case Success(embedding) =>
        if embedding == [] then Success(store)
        else Success(Upsert(store, a.id, embedding, ix.port.modelName).store)
  }

  /** An allowance with an empty passage never reaches the vectoriser: any
      two vectorisers leave the store as it is. */
  lemma EmptyDocumentSkipsVectorizer(store: Store, build: DocumentInput -> string, p: Port, q: Port, a: Allowance)
    requires build(DocumentOf(a)) == ""
    ensures IndexAllowance(store, Indexer(p, build), a) == IndexAllowance(store, Indexer(q, build), a) == Success(store)
  {
  }

  // ---------------------------------------------------------------------------
  // index_many
  // ---------------------------------------------------------------------------

  /** The state after a sequential batch: the store, how many allowances
      were indexed, and the failure that stopped the batch, if any. */
  datatype Batch = Batch(store: Store, processed: nat, error: Option<VectorizerError>)

  function IdsOf(xs: seq<Allowance>): (ids: set<AllowanceId>)
    ensures forall i :: 0 <= i < |xs| ==> xs[i].id in ids
    ensures forall k :: k in ids ==> exists i :: 0 <= i < |xs| && xs[i].id == k
  {
    if |xs| == 0 then {} else {xs[0].id} + IdsOf(xs[1..])
  }

  /** `index_many`: `index_allowance` on each allowance in list order; the
      first failure stops the batch. Only the listed allowances' records
      can change and no record is removed. */
  function IndexMany(store: Store, ix: Indexer, xs: seq<Allowance>): (b: Batch)
    ensures b.processed <= |xs|
    ensures b.error.None? <==> b.processed == |xs|
    ensures SameExcept(store, b.store, IdsOf(xs)) && store.Keys <= b.store.Keys
    decreases |xs|
  {
    if |xs| == 0 then Batch(store, 0, None)
    else
      match IndexAllowance(store, ix, xs[0])
      case Failure(e) => Batch(store, 0, Some(e))
      case Success(next) =>
        var rest := IndexMany(next, ix, xs[1..]);
        assert IdsOf(xs) == {xs[0].id} + IdsOf(xs[1..]);
        Batch(rest.store, rest.processed + 1, rest.error)
  }

  /** A batch that stops stops at the first failure: the allowances before
      it were indexed, and indexing the next one from the store they left
      fails with the reported error. */
  lemma {:induction false} IndexManyStopsAtFailure(store: Store, ix: Indexer, xs: seq<Allowance>)
    ensures var b := IndexMany(store, ix, xs);
      b.error.Some? ==>
        && IndexMany(store, ix, xs[..b.processed]) == Batch(b.store, b.processed, None)
        && IndexAllowance(b.store, ix, xs[b.processed]) == Failure(b.error.value)
    decreases |xs|
  {
    if |xs| > 0 {
      match IndexAllowance(store, ix, xs[0])
      case Failure(e) =>
        assert xs[..0] == [];
      case Success(next) =>
        var tail := xs[1..];
        var rest := IndexMany(next, ix, tail);
        assert IndexMany(store, ix, xs) == Batch(rest.store, rest.processed + 1, rest.error);
        IndexManyStopsAtFailure(next, ix, tail);
        if rest.error.Some? {
          var k := rest.processed;
          PrefixStep(store, ix, xs, next, k);
          assert xs[k + 1] == tail[k];
        }
    }
  }

  /** Indexing the first `k + 1` allowances is indexing the head, then the
      next `k` from the store it left. */
  lemma PrefixStep(store: Store, ix: Indexer, xs: seq<Allowance>, next: Store, k: nat)
    requires k < |xs|
    requires IndexAllowance(store, ix, xs[0]) == Success(next)
    ensures IndexMany(store, ix, xs[..k + 1]) == var b := IndexMany(next, ix, xs[1..][..k]);
      Batch(b.store, b.processed + 1, b.error)
  {
    var pre := xs[..k + 1];
    assert pre[0] == xs[0];
    assert pre[1..] == xs[1..][..k];
  }

  /** A batch that completes has written a record for every indexable
      allowance in it. */
  lemma {:induction false} IndexManyCompletes(store: Store, ix: Indexer, xs: seq<Allowance>)
    ensures var b := IndexMany(store, ix, xs);
      b.error.None? ==> forall i :: 0 <= i < |xs| && Indexable(ix, xs[i]) ==> xs[i].id in b.store
    decreases |xs|
  {
    if |xs| > 0 {
      match IndexAllowance(store, ix, xs[0])
      case Failure(_) =>
      case Success(next) =>
        var tail := xs[1..];
        var rest := IndexMany(next, ix, tail);
        assert IndexMany(store, ix, xs) == Batch(rest.store, rest.processed + 1, rest.error);
        IndexManyCompletes(next, ix, tail);
        if rest.error.None? {
          forall i | 0 <= i < |xs| && Indexable(ix, xs[i]) ensures xs[i].id in rest.store {
            if i > 0 {
              assert xs[i] == tail[i - 1];
            } else {
              assert xs[0].id in next && next.Keys <= rest.store.Keys;
            }
          }
        }
    }
  }

  /** A batch of one is `index_allowance` on its allowance: its store on
      success, its error, with nothing processed, on failure. Together with
      `IndexManyAppend` this makes a batch the allowance-by-allowance fold
      of `index_allowance` in list order. */
  lemma IndexManyOne(store: Store, ix: Indexer, a: Allowance)
    ensures IndexMany(store, ix, [a]) ==
      match IndexAllowance(store, ix, a)
      case Success(next) => Batch(next, 1, None)
      case Failure(e) => Batch(store, 0, Some(e))
  {
    assert [a][1..] == [];
  }

  /** Batches compose: indexing `xs + ys` indexes `xs`, then, unless that
      failed, indexes `ys` from the resulting store. */
  lemma {:induction false} IndexManyAppend(store: Store, ix: Indexer, xs: seq<Allowance>, ys: seq<Allowance>)
    ensures var first := IndexMany(store, ix, xs);
      var second := IndexMany(first.store, ix, ys);
      IndexMany(store, ix, xs + ys)
        == if first.error.Some? then first
           else Batch(second.store, |xs| + second.processed, second.error)
    decreases |xs|
  {
    if |xs| == 0 {
      assert xs + ys == ys;
    } else {
      assert (xs + ys)[0] == xs[0];
      assert (xs + ys)[1..] == xs[1..] + ys;
      match IndexAllowance(store, ix, xs[0])
      case Failure(_) =>
      case Success(next) =>
        IndexManyAppend(next, ix, xs[1..], ys);
    }
  }

  // ---------------------------------------------------------------------------
  // index_missing
  // ---------------------------------------------------------------------------

  /** The store after `index_missing` and what the call reports: the number
      of allowances it found without a record and processed, or the
      failure that stopped it. */
  datatype MissingRun = MissingRun(store: Store, result: Result<nat, VectorizerError>)

  /** `index_missing`: index exactly the catalogue's allowances that have
      no record; with none missing, do nothing. Records that existed are
      never touched. */
  function IndexMissing(catalog: seq<Allowance>, store: Store, ix: Indexer): (r: MissingRun)
    ensures ListWithoutEmbeddings(catalog, store) == [] ==> r == MissingRun(store, Success(0))
    ensures r.store == IndexMany(store, ix, ListWithoutEmbeddings(catalog, store)).store
    ensures r.result.Success? ==> r.result.value == |ListWithoutEmbeddings(catalog, store)|
    ensures var b := IndexMany(store, ix, ListWithoutEmbeddings(catalog, store));
      && (r.result.Failure? <==> b.error.Some?)
      && (r.result.Failure? ==> r.result.error == b.error.value)
    ensures forall k :: k in store ==> k in r.store && r.store[k] == store[k]
  {
    var missing := ListWithoutEmbeddings(catalog, store);
    if missing == [] then MissingRun(store, Success(0))
    else
      var b := IndexMany(store, ix, missing);
      forall k | k in IdsOf(missing) ensures k !in store {
        var i :| 0 <= i < |missing| && missing[i].id == k;
        assert missing[i] in missing;
      }
      match b.error
      case Some(e) => MissingRun(b.store, Failure(e))
      case None => MissingRun(b.store, Success(|missing|))
  }

  /** `index_missing` as the code has it: the same run, but the call
      returns `None` whatever it indexed, so only a vectoriser failure
      reaches the caller. */
  function IndexMissingAsWritten(catalog: seq<Allowance>, store: Store, ix: Indexer): (r: (Store, Option<VectorizerError>))
    ensures r.0 == IndexMissing(catalog, store, ix).store
    ensures r.1.Some? <==> IndexMissing(catalog, store, ix).result.Failure?
    ensures r.1.Some? ==> r.1.value == IndexMissing(catalog, store, ix).result.error
    ensures ListWithoutEmbeddings(catalog, store) == [] ==> r == (store, None)
  {
    var missing := ListWithoutEmbeddings(catalog, store);
    if missing == [] then (store, None)
    else
      var b := IndexMany(store, ix, missing);
      (b.store, b.error)
  }

  /** After a completed `index_missing`, a second call finds only
      allowances it cannot index: those whose passage or embedding is
      empty. */
  lemma IndexMissingConverges(catalog: seq<Allowance>, store: Store, ix: Indexer)
    requires IndexMissing(catalog, store, ix).result.Success?
    ensures forall a :: (a in ListWithoutEmbeddings(catalog, IndexMissing(catalog, store, ix).store)
                         ==> !Indexable(ix, a))
  {
    var missing := ListWithoutEmbeddings(catalog, store);
    var after := IndexMissing(catalog, store, ix).store;
    var b := IndexMany(store, ix, missing);
    assert missing != [] ==> b.error.None?;
    IndexManyCompletes(store, ix, missing);
    forall a | a in catalog && Indexable(ix, a) ensures a.id in after {
      if a.id !in store {
        assert a in missing;
        var i :| 0 <= i < |missing| && missing[i] == a;
      }
    }
  }
}

/** The embedding store (src/repositories/allowance_embedding_repository.py)
    as a map from allowance identifier to its single embedding record: the
    unique `allowance_id` column makes the identifier a key. The SQL
    statements become map and sequence operations over the allowance
    catalogue; the vector distance is a parameter. */
module EmbeddingRepository {

  import opened Wrappers
  import opened Catalog
  import opened Sorting
  import opened Vectorizer

  datatype EmbeddingRecord = EmbeddingRecord(embedding: Vector, model: string)

  type Store = map<AllowanceId, EmbeddingRecord>

  /** The row `upsert_embedding` returns. */
  datatype EmbeddingRow = EmbeddingRow(allowanceId: AllowanceId, embedding: Vector, model: string)

  datatype Upserted = Upserted(store: Store, row: EmbeddingRow)

  // ---------------------------------------------------------------------------
  // upsert_embedding
  // ---------------------------------------------------------------------------

  /** Insert-or-update on the `allowance_id` conflict key: afterwards the
      identifier has exactly the given record, and every other record is
      as it was. */
  function Upsert(store: Store, id: AllowanceId, embedding: Vector, model: string): (u: Upserted)
    ensures u.store.Keys == store.Keys + {id}
    ensures u.store[id] == EmbeddingRecord(embedding, model)
    ensures forall k :: k in store && k != id ==> u.store[k] == store[k]
    ensures u.row == EmbeddingRow(id, embedding, model)
  {
    Upserted(store[id := EmbeddingRecord(embedding, model)], EmbeddingRow(id, embedding, model))
  }

  /** Upserting the same values twice is the same as once. */
  lemma UpsertIdempotent(store: Store, id: AllowanceId, embedding: Vector, model: string)
    ensures Upsert(Upsert(store, id, embedding, model).store, id, embedding, model).store
         == Upsert(store, id, embedding, model).store
  {
  }

  /** The later of two upserts for one identifier wins. */
  lemma UpsertLastWriteWins(store: Store, id: AllowanceId, e1: Vector, m1: string, e2: Vector, m2: string)
    ensures Upsert(Upsert(store, id, e1, m1).store, id, e2, m2).store == Upsert(store, id, e2, m2).store
  {
  }

  /** Upserts for different identifiers commute. */
  lemma UpsertCommutes(store: Store, a: AllowanceId, ea: Vector, ma: string, b: AllowanceId, eb: Vector, mb: string)
    requires a != b
    ensures Upsert(Upsert(store, a, ea, ma).store, b, eb, mb).store
         == Upsert(Upsert(store, b, eb, mb).store, a, ea, ma).store
  {
  }

  // ---------------------------------------------------------------------------
  // list_allowances_without_embeddings
  // ---------------------------------------------------------------------------

  /** The outer join filtered on a missing embedding: the catalogue's
      allowances that have no record, in catalogue order. */
  function ListWithoutEmbeddings(catalog: seq<Allowance>, store: Store): (r: seq<Allowance>)
    ensures |r| <= |catalog|
    ensures forall a :: a in r <==> a in catalog && a.id !in store
  {
    if |catalog| == 0 then []
    else
      var rest := ListWithoutEmbeddings(catalog[1..], store);
      assert forall a :: a in catalog <==> a == catalog[0] || a in catalog[1..] by {
        assert catalog == [catalog[0]] + catalog[1..];
      }
      if catalog[0].id in store then rest else [catalog[0]] + rest
  }

  /** The listing keeps catalogue order: listing a concatenation lists
      each half in turn. */
  lemma {:induction false} ListWithoutEmbeddingsAppend(a: seq<Allowance>, b: seq<Allowance>, store: Store)
    ensures ListWithoutEmbeddings(a + b, store) == ListWithoutEmbeddings(a, store) + ListWithoutEmbeddings(b, store)
  {
    if |a| > 0 {
      assert (a + b)[1..] == a[1..] + b;
      ListWithoutEmbeddingsAppend(a[1..], b, store);
    } else {
      assert a + b == b;
    }
  }

  /** When no allowance lacks a record, nothing is listed. */
  lemma {:induction false} ListWithoutEmbeddingsEmpty(catalog: seq<Allowance>, store: Store)
    requires forall i :: 0 <= i < |catalog| ==> catalog[i].id in store
    ensures ListWithoutEmbeddings(catalog, store) == []
  {
    if |catalog| > 0 {
      ListWithoutEmbeddingsEmpty(catalog[1..], store);
    }
  }

  // ---------------------------------------------------------------------------
  // search_by_vector
  // ---------------------------------------------------------------------------

  /** A result row: the allowance and its distance to the query. */
  datatype SearchHit = SearchHit(allowance: Allowance, score: real)

  /** The database rejects a negative `LIMIT`. */
  datatype SearchError = NegativeLimit(limit: int)

  /** The inner join of the catalogue with the store, each allowance paired
      with its embedding's distance to the query, in catalogue order. */
  function Joined(catalog: seq<Allowance>, store: Store, query: Vector,
                  distance: (Vector, Vector) -> real): (r: seq<SearchHit>)
    ensures |r| <= |catalog|
    ensures forall h :: h in r ==>
      (h.allowance in catalog && h.allowance.id in store
       && h.score == distance(store[h.allowance.id].embedding, query))
    ensures forall a :: a in catalog && a.id in store ==>
      SearchHit(a, distance(store[a.id].embedding, query)) in r
  {
    if |catalog| == 0 then []
    else
      var rest := Joined(catalog[1..], store, query, distance);
      assert forall a :: a in catalog <==> a == catalog[0] || a in catalog[1..] by {
        assert catalog == [catalog[0]] + catalog[1..];
      }
      var a := catalog[0];
      if a.id in store then [SearchHit(a, distance(store[a.id].embedding, query))] + rest else rest
  }

  /** The sort key that orders hits by ascending distance. */
  function Closeness(h: SearchHit): real {
    -h.score
  }

  /** Python-free `LIMIT n`: the first `n` rows, or all of them. */
  function Take<T>(xs: seq<T>, n: nat): (r: seq<T>)
    ensures |r| == if n < |xs| then n else |xs|
    ensures r == xs[..|r|]
  {
    if n < |xs| then xs[..n] else xs
  }

  /** Rows ordered by distance, closest first (ties in catalogue order). */
  function RankedHits(catalog: seq<Allowance>, store: Store, query: Vector,
                      distance: (Vector, Vector) -> real): (r: seq<SearchHit>)
    ensures multiset(r) == multiset(Joined(catalog, store, query, distance))
    ensures forall i, j :: 0 <= i < j < |r| ==> r[i].score <= r[j].score
  {
    var r := SortDesc(Joined(catalog, store, query, distance), Closeness);
    assert forall i, j :: 0 <= i < j < |r| ==> Closeness(r[i]) >= Closeness(r[j]);
    r
  }

  /** The first `n` of hits sorted by distance are the closest: every hit
      left out is at least as far as every hit kept. */
  lemma ClosestPrefix(ranked: seq<SearchHit>, n: nat)
    requires forall i, j :: 0 <= i < j < |ranked| ==> ranked[i].score <= ranked[j].score
    ensures forall i, j :: 0 <= i < j < |Take(ranked, n)| ==> Take(ranked, n)[i].score <= Take(ranked, n)[j].score
    ensures multiset(Take(ranked, n)) <= multiset(ranked)
    ensures forall h :: h in multiset(ranked) - multiset(Take(ranked, n)) ==>
      forall i :: 0 <= i < |Take(ranked, n)| ==> Take(ranked, n)[i].score <= h.score
  {
    var hits := Take(ranked, n);
    var rest := ranked[|hits|..];
    assert ranked == hits + rest;
    assert multiset(ranked) == multiset(hits) + multiset(rest);
    forall h | h in multiset(ranked) - multiset(hits)
      ensures forall i :: 0 <= i < |hits| ==> hits[i].score <= h.score
    {
      assert h in rest;
      var j :| 0 <= j < |rest| && rest[j] == h;
      forall i | 0 <= i < |hits| ensures hits[i].score <= h.score {
        assert ranked[i] == hits[i] && ranked[|hits| + j] == h;
      }
    }
  }

  /** The `n` allowances with embeddings closest to the query, closest
      first, each with its distance as score. */
  function ClosestHits(catalog: seq<Allowance>, store: Store, query: Vector, n: nat,
                       distance: (Vector, Vector) -> real): (hits: seq<SearchHit>)
    ensures var joined := Joined(catalog, store, query, distance);
      && |hits| == (if n < |joined| then n else |joined|)
      && (forall i, j :: 0 <= i < j < |hits| ==> hits[i].score <= hits[j].score)
      && multiset(hits) <= multiset(joined)
      && (forall h :: h in multiset(joined) - multiset(hits) ==>
            forall i :: 0 <= i < |hits| ==> hits[i].score <= h.score)
    ensures forall i :: 0 <= i < |hits| ==>
      (hits[i].allowance in catalog && hits[i].allowance.id in store
       && hits[i].score == distance(store[hits[i].allowance.id].embedding, query))
  {
    var joined := Joined(catalog, store, query, distance);
    var ranked := RankedHits(catalog, store, query, distance);
    var hits := Take(ranked, n);
    ClosestPrefix(ranked, n);
    assert |ranked| == |joined| by {
      assert |multiset(ranked)| == |multiset(joined)|;
    }
    HitsFromJoin(catalog, store, query, distance, hits);
    hits
  }

  lemma HitsFromJoin(catalog: seq<Allowance>, store: Store, query: Vector,
                     distance: (Vector, Vector) -> real, hits: seq<SearchHit>)
    requires multiset(hits) <= multiset(Joined(catalog, store, query, distance))
    ensures forall i :: 0 <= i < |hits| ==>
      (hits[i].allowance in catalog && hits[i].allowance.id in store
       && hits[i].score == distance(store[hits[i].allowance.id].embedding, query))
  {
    forall i | 0 <= i < |hits|
      ensures hits[i].allowance in catalog && hits[i].allowance.id in store
      ensures hits[i].score == distance(store[hits[i].allowance.id].embedding, query)
    {
      assert hits[i] in multiset(hits);
    }
  }

  /** `search_by_vector`: the database rejects a negative limit; otherwise
      the closest `limit` allowances with embeddings. */
  function SearchByVector(catalog: seq<Allowance>, store: Store, query: Vector, limit: int,
                          distance: (Vector, Vector) -> real): (r: Result<seq<SearchHit>, SearchError>)
    ensures r.Failure? <==> limit < 0
    ensures r.Failure? ==> r.error == NegativeLimit(limit)
    ensures r.Success? ==> r.value == ClosestHits(catalog, store, query, limit, distance)
  {
    if limit < 0 then Failure(NegativeLimit(limit))
    else Success(ClosestHits(catalog, store, query, limit, distance))
  }
}

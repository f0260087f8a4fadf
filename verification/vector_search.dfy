/** The heuristic allowance search (src/services/vector_search_service.py):
    every listed allowance is scored by a string-similarity ratio between
    the lower-cased query and the lower-cased "name npa_name" haystack, the
    scores are sorted highest first (stably) and the list is cut at
    `limit`. The ratio, `difflib.SequenceMatcher(...).ratio()`, is a
    parameter; only its range [0, 1] is assumed, and only where stated. */
module VectorSearch {

  import opened Wrappers
  import opened Text
  import opened Catalog
  import opened Sorting

  /** `SearchResultDTO`. */
  datatype SearchResult = SearchResult(id: AllowanceId, name: string, score: real)

  /** A similarity ratio between two strings. */
  type Ratio = (string, string) -> real

  /** `SequenceMatcher.ratio()` stays within [0, 1]. */
  ghost predicate RatioInRange(ratio: Ratio) {
    forall a, b :: 0.0 <= ratio(a, b) <= 1.0
  }

  /** The sort key: the score. */
  function ScoreOf(h: SearchResult): real {
    h.score
  }

  /** `filter(None, parts)`: the parts that are neither `None` nor "". */
  function NonEmptyParts(parts: seq<Option<string>>): (r: seq<string>)
    ensures forall i :: 0 <= i < |r| ==> r[i] != ""
    ensures |r| <= |parts|
  {
    if |parts| == 0 then []
    else
      (if parts[0].Some? && parts[0].value != "" then [parts[0].value] else [])
        + NonEmptyParts(parts[1..])
  }

  /** `" ".join(filter(None, [name, npa_name]))`. */
  function Haystack(a: Allowance): string {
    Join(NonEmptyParts([Some(a.name), a.npaName]), " ")
  }

  /** The haystack case by case: both parts joined by one space, or the one
      non-empty part alone, or "". */
  lemma HaystackCases(a: Allowance)
    ensures var npa := a.npaName.GetOr("");
      Haystack(a) ==
        if a.name != "" && npa != "" then a.name + " " + npa
        else if a.name != "" then a.name
        else npa
  {
    var parts := [Some(a.name), a.npaName];
    var npa := a.npaName.GetOr("");
    var tail := if npa != "" then [npa] else [];
    assert parts[1..] == [a.npaName];
    assert parts[1..][1..] == [];
    assert NonEmptyParts(parts[1..]) == tail;
    if a.name != "" {
      assert NonEmptyParts(parts) == [a.name] + tail;
      if npa != "" {
        var ws := [a.name, npa];
        assert [a.name] + tail == ws;
        assert ws[1..] == [npa];
        assert Join(ws, " ") == a.name + " " + Join([npa], " ");
      } else {
        assert [a.name] + tail == [a.name];
      }
    } else {
      assert NonEmptyParts(parts) == tail;
    }
  }

  /** One listed allowance scored against the stripped query. */
  function ScoreOne(ratio: Ratio, cleaned: string, a: Allowance): (h: SearchResult)
    ensures h.id == a.id && h.name == a.name
    ensures RatioInRange(ratio) ==> 0.0 <= h.score <= 1.0
  {
    SearchResult(a.id, a.name, ratio(Lower(cleaned), Lower(Haystack(a))))
  }

  /** The scoring loop: one result per listed allowance, in list order. */
  function ScoreAll(ratio: Ratio, cleaned: string, xs: seq<Allowance>): (r: seq<SearchResult>)
    ensures |r| == |xs|
    ensures forall i :: 0 <= i < |xs| ==> r[i] == ScoreOne(ratio, cleaned, xs[i])
  {
    if |xs| == 0 then [] else [ScoreOne(ratio, cleaned, xs[0])] + ScoreAll(ratio, cleaned, xs[1..])
  }

  /** Python's `xs[:limit]`: a negative limit counts from the end. */
  function Slice<T>(xs: seq<T>, limit: int): (r: seq<T>)
    ensures |r| <= |xs| && r == xs[..|r|]
    ensures limit >= 0 ==> |r| == if limit < |xs| then limit else |xs|
    ensures limit < 0 ==> |r| == if |xs| + limit > 0 then |xs| + limit else 0
  {
    var n := if limit >= 0 then limit else |xs| + limit;
    if n <= 0 then [] else if n >= |xs| then xs else xs[..n]
  }

  /** The scored list after `sort(key=score, reverse=True)`. */
  function Ranking(ratio: Ratio, cleaned: string, listed: seq<Allowance>): (r: seq<SearchResult>)
    ensures |r| == |listed|
    ensures SortedDesc(r, ScoreOf)
    ensures multiset(r) == multiset(ScoreAll(ratio, cleaned, listed))
  {
    SortDesc(ScoreAll(ratio, cleaned, listed), ScoreOf)
  }

  /** `VectorSearchService.search` over the allowances `list_all` returned.
      A blank query gives no results; otherwise the results are the
      highest-scoring allowances, best first, cut at `limit`. */
  function Search(listed: seq<Allowance>, ratio: Ratio, query: string, limit: int): (r: seq<SearchResult>)
    ensures AllSpace(query) ==> r == []
    ensures |r| <= |listed|
    ensures !AllSpace(query) ==> r == Ranking(ratio, Strip(query), listed)[..|r|]
    ensures !AllSpace(query) && limit >= 0 ==> |r| == if limit < |listed| then limit else |listed|
    ensures SortedDesc(r, ScoreOf)
  {
    var cleaned := Strip(query);
    if cleaned == [] then [] else Slice(Ranking(ratio, cleaned, listed), limit)
  }

  /** Every result is one listed allowance scored against the stripped
      query, so every score lies in the ratio's range. */
  lemma SearchFromListed(listed: seq<Allowance>, ratio: Ratio, query: string, limit: int)
    ensures forall h :: h in Search(listed, ratio, query, limit) ==>
      exists a :: a in listed && h == ScoreOne(ratio, Strip(query), a)
    ensures RatioInRange(ratio) ==>
      forall h :: h in Search(listed, ratio, query, limit) ==> 0.0 <= h.score <= 1.0
  {
    var r := Search(listed, ratio, query, limit);
    var cleaned := Strip(query);
    var ranked := Ranking(ratio, cleaned, listed);
    var scored := ScoreAll(ratio, cleaned, listed);
    forall h | h in r ensures exists a :: a in listed && h == ScoreOne(ratio, cleaned, a) {
      assert h in multiset(ranked);
      assert h in multiset(scored);
      var i :| 0 <= i < |scored| && scored[i] == h;
      assert listed[i] in listed;
    }
  }

  /** A blank query is answered without listing: the result does not
      depend on the stored allowances. */
  lemma BlankQueryIgnoresStore(xs: seq<Allowance>, ys: seq<Allowance>, ratio: Ratio, query: string, limit: int)
    requires AllSpace(query)
    ensures Search(xs, ratio, query, limit) == Search(ys, ratio, query, limit) == []
  {
  }

  /** The comparison is case-insensitive: queries whose stripped forms
      agree after lower-casing give the same results. */
  lemma SearchIgnoresQueryCase(listed: seq<Allowance>, ratio: Ratio, q1: string, q2: string, limit: int)
    requires Lower(Strip(q1)) == Lower(Strip(q2))
    ensures Search(listed, ratio, q1, limit) == Search(listed, ratio, q2, limit)
  {
    assert |Strip(q1)| == |Strip(q2)|;
    assert ScoreAll(ratio, Strip(q1), listed) == ScoreAll(ratio, Strip(q2), listed);
  }

  /** Ties keep list order: the results with any one score appear in the
      ranking in the order `list_all` returned their allowances. */
  lemma RankingStable(listed: seq<Allowance>, ratio: Ratio, cleaned: string, k: real)
    ensures KeyClass(Ranking(ratio, cleaned, listed), ScoreOf, k) == KeyClass(ScoreAll(ratio, cleaned, listed), ScoreOf, k)
  {
    SortDescStable(ScoreAll(ratio, cleaned, listed), ScoreOf, k);
  }

  /** An element at two positions occurs at least twice. */
  lemma {:induction false} TwiceCounted<T>(s: seq<T>, i: nat, j: nat)
    requires i < j < |s| && s[i] == s[j]
    ensures multiset(s)[s[i]] >= 2
  {
    var x := s[i];
    assert s == s[..i] + [x] + s[i + 1..];
    assert s[i + 1..][j - i - 1] == x;
    assert x in multiset(s[i + 1..]);
    assert multiset(s) == multiset(s[..i]) + multiset{x} + multiset(s[i + 1..]);
  }

  /** Elements at distinct positions of a sequence without repetitions are
      distinct. */
  lemma OnceCounted<T>(s: seq<T>, x: T)
    requires x in s
    requires forall i, j :: 0 <= i < j < |s| ==> s[i] != s[j]
    ensures multiset(s)[x] == 1
    decreases |s|
  {
    if s[0] == x {
      assert s == [x] + s[1..];
      assert x !in s[1..];
    } else {
      assert s == [s[0]] + s[1..];
      OnceCounted(s[1..], x);
    }
  }

  /** Reordering keeps keys distinct: a permutation of a sequence whose
      elements have pairwise distinct keys has the same property. */
  lemma PermutationKeepsDistinctKeys<T>(a: seq<T>, b: seq<T>, key: T -> int)
    requires multiset(a) == multiset(b)
    requires forall i, j :: 0 <= i < j < |a| ==> key(a[i]) != key(a[j])
    ensures forall i, j :: 0 <= i < j < |b| ==> key(b[i]) != key(b[j])
  {
    forall i, j | 0 <= i < j < |b| ensures key(b[i]) != key(b[j]) {
      if key(b[i]) == key(b[j]) {
        assert b[i] in multiset(a) && b[j] in multiset(a);
        var p :| 0 <= p < |a| && a[p] == b[i];
        var q :| 0 <= q < |a| && a[q] == b[j];
        assert p == q;
        OnceCounted(a, b[i]);
        TwiceCounted(b, i, j);
        assert false;
      }
    }
  }

  function IdOf(h: SearchResult): int {
    h.id
  }

  /** With unique identifiers in the store, the ranking holds no
      allowance twice. */
  lemma RankingDistinct(listed: seq<Allowance>, ratio: Ratio, cleaned: string)
    requires UniqueIds(listed)
    ensures var ranked := Ranking(ratio, cleaned, listed);
      forall i, j :: 0 <= i < j < |ranked| ==> ranked[i].id != ranked[j].id
  {
    var scored := ScoreAll(ratio, cleaned, listed);
    assert forall i, j :: 0 <= i < j < |scored| ==> IdOf(scored[i]) != IdOf(scored[j]);
    PermutationKeepsDistinctKeys(scored, Ranking(ratio, cleaned, listed), IdOf);
  }

  /** With unique identifiers in the store, no allowance appears twice in
      the results. */
  lemma SearchDistinct(listed: seq<Allowance>, ratio: Ratio, query: string, limit: int)
    requires UniqueIds(listed)
    ensures var r := Search(listed, ratio, query, limit);
      forall i, j :: 0 <= i < j < |r| ==> r[i].id != r[j].id
  {
    var r := Search(listed, ratio, query, limit);
    if !AllSpace(query) {
      var ranked := Ranking(ratio, Strip(query), listed);
      RankingDistinct(listed, ratio, Strip(query));
      assert r == ranked[..|r|];
      forall i, j | 0 <= i < j < |r| ensures r[i].id != r[j].id {
        assert r[i] == ranked[i] && r[j] == ranked[j];
      }
    }
  }
}

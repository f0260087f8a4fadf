/** The parser life cycle (src/parsers/base.py): discover the sources,
    parse each one, and keep the allowances of the sources that parsed,
    counting successes and failures. The gathering is modelled
    sequentially; a source's parse is a function that either returns its
    allowances or raises. */
module ParserBase {

  import opened Wrappers

  /** The allowance record the parsers produce and the allowance service
      consumes: name, NPA number, the full law name and the subjects. */
  datatype ParsedAllowance = ParsedAllowance(
    name: string,
    npaNumber: string,
    npaName: Option<string>,
    subjects: Option<seq<string>>)

  /** The allowances of the sources that parsed, in source order. */
  function Gathered<T>(results: seq<Result<seq<T>, string>>): seq<T> {
    if |results| == 0 then []
    else (if results[0].Success? then results[0].value else []) + Gathered(results[1..])
  }

  /** How many sources parsed. */
  function Succeeded<T>(results: seq<Result<seq<T>, string>>): (n: nat)
    ensures n <= |results|
  {
    if |results| == 0 then 0
    else (if results[0].Success? then 1 else 0) + Succeeded(results[1..])
  }

  /** Gathering distributes over concatenation of the result lists. */
  lemma {:induction false} GatheredAppend<T>(a: seq<Result<seq<T>, string>>, b: seq<Result<seq<T>, string>>)
    ensures Gathered(a + b) == Gathered(a) + Gathered(b)
    ensures Succeeded(a + b) == Succeeded(a) + Succeeded(b)
  {
    if |a| == 0 {
      assert a + b == b;
    } else {
      assert (a + b)[0] == a[0];
      assert (a + b)[1..] == a[1..] + b;
      GatheredAppend(a[1..], b);
    }
  }

  /** A failing source contributes nothing and takes nothing away from the
      others. */
  lemma FailureIsolated<T>(a: seq<Result<seq<T>, string>>, message: string, b: seq<Result<seq<T>, string>>)
    ensures Gathered(a + [Failure(message)] + b) == Gathered(a) + Gathered(b)
    ensures Succeeded(a + [Failure(message)] + b) == Succeeded(a) + Succeeded(b)
  {
    var f: seq<Result<seq<T>, string>> := [Failure(message)];
    GatheredAppend(a, f);
    GatheredAppend(a + f, b);
    assert f[1..] == [];
  }

  /** The aggregation loop of `run`: the results are visited in order,
      each success extends the allowance list and each failure is
      counted. */
  method Aggregate<T>(results: seq<Result<seq<T>, string>>) returns (allowances: seq<T>, succeeded: nat, failed: nat)
    ensures allowances == Gathered(results)
    ensures succeeded == Succeeded(results)
    ensures succeeded + failed == |results|
  {
    allowances := [];
    succeeded := 0;
    failed := 0;
    var i := 0;
    while i < |results|
      invariant 0 <= i <= |results|
      invariant allowances == Gathered(results[..i])
      invariant succeeded == Succeeded(results[..i])
      invariant succeeded + failed == i
    {
      GatheredAppend(results[..i], [results[i]]);
      assert results[..i + 1] == results[..i] + [results[i]];
      assert [results[i]][1..] == [];
      if results[i].Failure? {
        failed := failed + 1;
      } else {
        succeeded := succeeded + 1;
        allowances := allowances + results[i].value;
      }
      i := i + 1;
    }
    assert results[..i] == results;
  }

  /** Each source's parse, in source order. */
  function ParseEach<T>(sources: seq<string>, parse: string -> Result<seq<T>, string>): (r: seq<Result<seq<T>, string>>)
    ensures |r| == |sources|
    ensures forall i :: 0 <= i < |sources| ==> r[i] == parse(sources[i])
  {
    if |sources| == 0 then [] else [parse(sources[0])] + ParseEach(sources[1..], parse)
  }

  /** `BaseParser.run`: a failure to discover sources propagates; with no
      sources the result is empty; otherwise it is the allowances of every
      source that parsed, in source order, whatever the others did. */
  method Run<T>(discovered: Result<seq<string>, string>, parse: string -> Result<seq<T>, string>)
    returns (r: Result<seq<T>, string>)
    ensures discovered.Failure? ==> r == Failure(discovered.error)
    ensures discovered == Success([]) ==> r == Success([])
    ensures discovered.Success? ==> r == Success(Gathered(ParseEach(discovered.value, parse)))
  {
    if discovered.Failure? {
      return Failure(discovered.error);
    }
    var sources := discovered.value;
    if |sources| == 0 {
      return Success([]);
    }
    var results := ParseEach(sources, parse);
    var allowances, succeeded, failed := Aggregate(results);
    return Success(allowances);
  }
}

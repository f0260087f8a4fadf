/** The HTTP error taxonomy of the embedding workflows
    (src/core/exceptions/embeddings.py): three kinds of `EmbeddingError`,
    each with a fixed status code and a default detail message. */
module EmbeddingErrors {

  import opened Wrappers

  datatype Kind = Validation | NotFound | Processing

  /** An raised embedding error: its kind fixes the status code. */
  datatype EmbeddingError = EmbeddingError(kind: Kind, detail: string)

  /** The detail each kind carries when the raiser gives none. */
  function DefaultDetail(kind: Kind): string {
    match kind
    case Validation => "Embedding request is invalid."
    case NotFound => "Referenced resources were not found."
    case Processing => "Embedding processing failed."
  }

  /** The HTTP status code of an error of `kind`. */
  function StatusCode(kind: Kind): (code: int)
    ensures code == 400 <==> kind == Validation
    ensures code == 404 <==> kind == NotFound
    ensures code == 500 <==> kind == Processing
  {
    match kind
    case Validation => 400
    case NotFound => 404
    case Processing => 500
  }

  /** Constructs an error the way the exception classes do: the given
      detail, or the kind's default when none is given. */
  function Raise(kind: Kind, detail: Option<string>): (e: EmbeddingError)
    ensures e.kind == kind
    ensures detail.Some? ==> e.detail == detail.value
    ensures detail.None? ==> e.detail == DefaultDetail(kind)
  {
    EmbeddingError(kind, detail.GetOr(DefaultDetail(kind)))
  }

  /** The status code identifies the kind: no two kinds share one. */
  lemma StatusCodeIdentifiesKind(a: Kind, b: Kind)
    ensures StatusCode(a) == StatusCode(b) <==> a == b
  {
  }

  /** Validation and not-found errors are client errors (4xx); only a
      processing failure is a server error (5xx). */
  lemma ClientErrorKinds(kind: Kind)
    ensures 400 <= StatusCode(kind) < 500 <==> kind != Processing
    ensures 500 <= StatusCode(kind) < 600 <==> kind == Processing
  {
  }

  /** The default details are pairwise distinct, so a default message also
      identifies its kind. */
  lemma DefaultDetailsDistinct(a: Kind, b: Kind)
    ensures DefaultDetail(a) == DefaultDetail(b) <==> a == b
  {
    if a != b {
      assert |DefaultDetail(a)| != |DefaultDetail(b)|;
    }
  }
}

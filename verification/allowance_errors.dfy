/** The HTTP error taxonomy of the allowance domain
    (src/core/exceptions/allowances.py): both kinds are variants of the
    one `AllowanceError` type, each with a fixed status code and a default
    detail message. */
module AllowanceErrors {

  import opened Wrappers

  datatype Kind = Validation | Parsing

  datatype AllowanceError = AllowanceError(kind: Kind, detail: string)

  /** The detail each kind carries when the raiser gives none. */
  function DefaultDetail(kind: Kind): string {
    match kind
    case Validation => "Invalid allowance data."
    case Parsing => "Failed to parse allowances from source."
  }

  /** The HTTP status code of an error of `kind`: a bad payload is the
      client's fault, a failed upstream parse is a bad gateway. */
  function StatusCode(kind: Kind): (code: int)
    ensures code == 400 <==> kind == Validation
    ensures code == 502 <==> kind == Parsing
  {
    match kind
    case Validation => 400
    case Parsing => 502
  }

  /** Constructs an error the way the exception classes do: the given
      detail, or the kind's default when none is given. */
  function Raise(kind: Kind, detail: Option<string>): (e: AllowanceError)
    ensures e.kind == kind
    ensures detail.Some? ==> e.detail == detail.value
    ensures detail.None? ==> e.detail == DefaultDetail(kind)
  {
    AllowanceError(kind, detail.GetOr(DefaultDetail(kind)))
  }

  /** Only a parsing failure is a server-side (5xx) status. */
  lemma ServerErrorKinds(kind: Kind)
    ensures 500 <= StatusCode(kind) < 600 <==> kind == Parsing
  {
  }
}

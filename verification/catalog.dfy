/** The allowance record as the embedding and search services read it:
    identifier, display name, legal-basis text (`npa_name`), jurisdiction
    level, eligibility subjects and validity period. The subjects are the
    stored column: one string, the cleaned subjects joined with ",". */
module Catalog {

  import opened Wrappers

  type AllowanceId = int

  datatype Allowance = Allowance(
    id: AllowanceId,
    name: string,
    npaName: Option<string>,
    level: Option<string>,
    subjects: Option<string>,
    validityPeriod: Option<string>)

  /** Allowance identifiers are a primary key: no two records share one. */
  predicate UniqueIds(xs: seq<Allowance>) {
    forall i, j :: 0 <= i < j < |xs| ==> xs[i].id != xs[j].id
  }

  predicate HasId(xs: seq<Allowance>, id: AllowanceId) {
    exists i :: 0 <= i < |xs| && xs[i].id == id
  }
}

/** Text builders for the embedding model: the free-text normaliser, the
    passage document composed from an allowance's fields, and the prefixed
    query (src/services/embedding_builder.py). */
module EmbeddingBuilder {

  import opened Wrappers
  import opened Text

  // ---------------------------------------------------------------------------
  // TextNormalizer.normalize
  // ---------------------------------------------------------------------------

  /** Collapses whitespace and trims; a missing or empty value gives "". */
  function Normalize(value: Option<string>): (r: string)
    ensures IsNormalized(r)
    ensures value.None? ==> r == ""
    ensures value.Some? ==> Split(r) == Split(value.value)
    ensures r == "" <==> (value.None? || AllSpace(value.value))
  {
    match value
    case None => ""
    case Some(s) => if s == "" then "" else Collapse(s)
  }

  /** Normalising an already normalised text changes nothing. */
  lemma NormalizeIdempotent(value: Option<string>)
    ensures Normalize(Some(Normalize(value))) == Normalize(value)
  {
    if value.Some? && value.value != "" {
      CollapseIdempotent(value.value);
    }
  }

  // ---------------------------------------------------------------------------
  // AllowanceEmbeddingBuilder.build_document
  // ---------------------------------------------------------------------------

  /** The keyword arguments of `build_document`. */
  datatype DocumentInput = DocumentInput(
    name: string,
    npaName: Option<string>,
    level: Option<string>,
    subjects: Option<seq<string>>,
    validityPeriod: Option<string>)

  /** The labelled segments a passage can hold. */
  datatype Field = Name | Level | LegalBasis | Eligibility | Validity

  function Label(f: Field): string {
    match f
    case Name => "name"
    case Level => "level"
    case LegalBasis => "legal_basis"
    case Eligibility => "eligibility"
    case Validity => "validity"
  }

  /** The fixed position of each field in a passage. */
  function Rank(f: Field): nat {
    match f
    case Name => 0
    case Level => 1
    case LegalBasis => 2
    case Eligibility => 3
    case Validity => 4
  }

  datatype Segment = Segment(field: Field, content: string)

  function Render(s: Segment): string {
    Label(s.field) + ": " + s.content
  }

  function RenderAll(segs: seq<Segment>): (r: seq<string>)
    ensures |r| == |segs|
    ensures forall i :: 0 <= i < |segs| ==> r[i] == Render(segs[i])
  {
    if |segs| == 0 then [] else [Render(segs[0])] + RenderAll(segs[1..])
  }

  /** The subjects that are non-empty before normalising, in input order
      (the `if subject` filter of the comprehension). */
  function NonEmptyOnly(xs: seq<string>): (r: seq<string>)
    ensures |r| <= |xs|
    ensures forall i :: 0 <= i < |r| ==> r[i] != "" && r[i] in xs
    ensures forall i :: 0 <= i < |xs| && xs[i] != "" ==> xs[i] in r
  {
    if |xs| == 0 then []
    else if xs[0] == "" then NonEmptyOnly(xs[1..])
    else [xs[0]] + NonEmptyOnly(xs[1..])
  }

  /** The filter keeps input order: filtering a concatenation concatenates
      the filtered halves. */
  lemma {:induction false} NonEmptyOnlyAppend(a: seq<string>, b: seq<string>)
    ensures NonEmptyOnly(a + b) == NonEmptyOnly(a) + NonEmptyOnly(b)
  {
    if |a| > 0 {
      assert (a + b)[1..] == a[1..] + b;
      NonEmptyOnlyAppend(a[1..], b);
    } else {
      assert a + b == b;
    }
  }

  /** Subjects that are all non-empty pass the filter unchanged. */
  lemma {:induction false} NonEmptyOnlyKeepsAll(xs: seq<string>)
    requires forall i :: 0 <= i < |xs| ==> xs[i] != ""
    ensures NonEmptyOnly(xs) == xs
  {
    if |xs| > 0 {
      NonEmptyOnlyKeepsAll(xs[1..]);
    }
  }

  /** Normalises each subject. */
  function NormalizeEach(xs: seq<string>): (r: seq<string>)
    ensures |r| == |xs|
    ensures forall i :: 0 <= i < |xs| ==> r[i] == Normalize(Some(xs[i]))
  {
    if |xs| == 0 then [] else [Normalize(Some(xs[0]))] + NormalizeEach(xs[1..])
  }

  /** The cleaned subjects of the eligibility segment. A whitespace-only
      subject survives as "". */
  function CleanedSubjects(subjects: seq<string>): (r: seq<string>)
    ensures |r| <= |subjects|
    ensures r == [] <==> forall i :: 0 <= i < |subjects| ==> subjects[i] == ""
  {
    var kept := NonEmptyOnly(subjects);
    assert kept == [] <==> forall i :: 0 <= i < |subjects| ==> subjects[i] == "" by {
      if kept != [] {
        assert kept[0] in subjects;
      }
    }
    NormalizeEach(kept)
  }

  /** Some subject is non-empty before normalisation. */
  predicate HasRawSubject(subjects: Option<seq<string>>) {
    subjects.Some? && exists i :: 0 <= i < |subjects.value| && subjects.value[i] != ""
  }

  /** Whether a field contributes a segment. */
  predicate Present(d: DocumentInput, f: Field) {
    match f
    case Name => Normalize(Some(d.name)) != ""
    case Level => Normalize(d.level) != ""
    case LegalBasis => Normalize(d.npaName) != ""
    case Eligibility => HasRawSubject(d.subjects)
    case Validity => Normalize(d.validityPeriod) != ""
  }

  /** The text a field's segment carries. */
  function Content(d: DocumentInput, f: Field): string {
    match f
    case Name => Normalize(Some(d.name))
    case Level => Normalize(d.level)
    case LegalBasis => Normalize(d.npaName)
    case Eligibility => Join(CleanedSubjects(d.subjects.GetOr([])), "; ")
    case Validity => Normalize(d.validityPeriod)
  }

  /** The condition under which the source appends a field's part: a
      non-empty cleaned value, or for the eligibility part a non-empty
      subject list whose cleaned form is non-empty. */
  predicate Appends(d: DocumentInput, f: Field) {
    if f == Eligibility then
      d.subjects.Some? && d.subjects.value != [] && CleanedSubjects(d.subjects.value) != []
    else Content(d, f) != ""
  }

  /** The eligibility part is appended exactly when some raw subject is
      non-empty. */
  lemma AppendsIffPresent(d: DocumentInput, f: Field)
    ensures Appends(d, f) <==> Present(d, f)
  {
  }

  predicate HasField(segs: seq<Segment>, f: Field) {
    exists i :: 0 <= i < |segs| && segs[i].field == f
  }

  predicate RankIncreasing(fs: seq<Field>) {
    forall i, j :: 0 <= i < j < |fs| ==> Rank(fs[i]) < Rank(fs[j])
  }

  /** The fields in the order the source appends them. */
  const FieldOrder: seq<Field> := [Name, Level, LegalBasis, Eligibility, Validity]

  lemma FieldOrderIncreasing()
    ensures RankIncreasing(FieldOrder)
  {
  }

  lemma EveryFieldOrdered(f: Field)
    ensures f in FieldOrder
  {
    assert FieldOrder[Rank(f)] == f;
  }

  lemma HasFieldCons(s: Segment, rest: seq<Segment>)
    ensures forall f :: HasField([s] + rest, f) <==> f == s.field || HasField(rest, f)
  {
    var segs := [s] + rest;
    forall f ensures HasField(segs, f) <==> f == s.field || HasField(rest, f) {
      if HasField(rest, f) {
        var i :| 0 <= i < |rest| && rest[i].field == f;
        assert segs[i + 1] == rest[i];
      }
      assert segs[0] == s;
    }
  }

  function AppendsOf(d: DocumentInput): Field -> bool {
    f => Appends(d, f)
  }

  function ContentOf(d: DocumentInput): Field -> string {
    f => Content(d, f)
  }

  /** The parts of `fields` that are appended, in order: one segment per
      field that `appends` accepts, carrying its `content`. */
  function AppendParts(fields: seq<Field>, appends: Field -> bool, content: Field -> string): (segs: seq<Segment>)
    requires RankIncreasing(fields)
    ensures forall i :: 0 <= i < |segs| ==> |fields| > 0 && Rank(fields[0]) <= Rank(segs[i].field)
    ensures forall i, j :: 0 <= i < j < |segs| ==> Rank(segs[i].field) < Rank(segs[j].field)
    ensures forall i :: 0 <= i < |segs| ==> segs[i].content == content(segs[i].field)
    ensures forall f :: HasField(segs, f) <==> f in fields && appends(f)
  {
    if |fields| == 0 then []
    else
      var head := fields[0];
      var tail := fields[1..];
      assert fields == [head] + tail;
      var rest := AppendParts(tail, appends, content);
      if appends(head) then
        var s := Segment(head, content(head));
        HasFieldCons(s, rest);
        [s] + rest
      else
        rest
  }

  /** The segments of the passage: the present fields, in the fixed order
      name, level, legal_basis, eligibility, validity, each carrying its
      cleaned content. */
  function Segments(d: DocumentInput): (segs: seq<Segment>)
    ensures forall i, j :: 0 <= i < j < |segs| ==> Rank(segs[i].field) < Rank(segs[j].field)
    ensures forall i :: 0 <= i < |segs| ==> segs[i].content == Content(d, segs[i].field)
    ensures forall f :: Present(d, f) <==> HasField(segs, f)
  {
    PartsArePresentFields(d);
    AppendParts(FieldOrder, AppendsOf(d), ContentOf(d))
  }

  lemma PartsArePresentFields(d: DocumentInput)
    ensures forall f :: Present(d, f) <==> HasField(AppendParts(FieldOrder, AppendsOf(d), ContentOf(d)), f)
  {
    forall f ensures Present(d, f) <==> HasField(AppendParts(FieldOrder, AppendsOf(d), ContentOf(d)), f) {
      AppendsIffPresent(d, f);
      EveryFieldOrdered(f);
    }
  }

  /** The passage string for an allowance: the present segments in the
      fixed order, joined by " | ", prefixed with "passage: "; "" when no
      field contributes. */
  function BuildDocument(d: DocumentInput): (r: string)
    ensures r == "" <==> forall f :: !Present(d, f)
    ensures r != "" ==> StartsWith(r, "passage: ")
    ensures r != "" ==> r[|"passage: "|..] == Join(RenderAll(Segments(d)), " | ")
  {
    var segs := Segments(d);
    // `" | ".join(part for part in parts if part)`: every part starts with
    // its label, so the filter keeps them all.
    var passage := Join(RenderAll(segs), " | ");
    assert passage == "" <==> segs == [] by {
      if segs != [] {
        JoinNonEmpty(RenderAll(segs), " | ");
      }
    }
    assert segs == [] <==> forall f :: !Present(d, f) by {
      if segs != [] {
        assert HasField(segs, segs[0].field);
      }
    }
    if passage == "" then "" else "passage: " + passage
  }

  lemma JoinNonEmpty(ws: seq<string>, sep: string)
    requires |ws| > 0 && |ws[0]| > 0
    ensures |Join(ws, sep)| > 0
  {
  }

  /** A document whose only content is one whitespace-only subject. */
  predicate OnlyBlankSubject(d: DocumentInput) {
    && (forall f :: f != Eligibility ==> !Present(d, f))
    && d.subjects.Some? && |d.subjects.value| == 1
    && d.subjects.value[0] != "" && AllSpace(d.subjects.value[0])
  }

  lemma BlankSubjectContent(d: DocumentInput)
    requires OnlyBlankSubject(d)
    ensures Present(d, Eligibility) && Content(d, Eligibility) == ""
  {
    var blank := d.subjects.value[0];
    assert d.subjects.value == [blank];
    assert NonEmptyOnly([blank]) == [blank];
  }

  lemma {:induction false} AppendPartsNone(fields: seq<Field>, appends: Field -> bool, content: Field -> string)
    requires RankIncreasing(fields)
    requires forall i :: 0 <= i < |fields| ==> !appends(fields[i])
    ensures AppendParts(fields, appends, content) == []
  {
    if |fields| > 0 {
      AppendPartsNone(fields[1..], appends, content);
    }
  }

  /** When exactly one field is appended, the parts are that field's
      segment alone. */
  lemma {:induction false} AppendPartsSingle(fields: seq<Field>, appends: Field -> bool, content: Field -> string, f: Field)
    requires RankIncreasing(fields)
    requires forall g :: appends(g) <==> g == f
    requires f in fields
    ensures AppendParts(fields, appends, content) == [Segment(f, content(f))]
  {
    var tail := fields[1..];
    if fields[0] == f {
      forall i | 0 <= i < |tail| ensures !appends(tail[i]) {
        assert Rank(fields[0]) < Rank(fields[i + 1]);
      }
      AppendPartsNone(tail, appends, content);
    } else {
      assert f in tail;
      AppendPartsSingle(tail, appends, content, f);
    }
  }

  /** A document with a single present field has that field's segment
      only. */
  lemma SinglePresentField(d: DocumentInput, f: Field)
    requires Present(d, f)
    requires forall g :: g != f ==> !Present(d, g)
    ensures Segments(d) == [Segment(f, Content(d, f))]
  {
    forall g ensures AppendsOf(d)(g) <==> g == f {
      AppendsIffPresent(d, g);
    }
    EveryFieldOrdered(f);
    FieldOrderIncreasing();
    AppendPartsSingle(FieldOrder, AppendsOf(d), ContentOf(d), f);
  }

  lemma BlankSubjectSegments(d: DocumentInput)
    requires OnlyBlankSubject(d)
    ensures Segments(d) == [Segment(Eligibility, "")]
  {
    BlankSubjectContent(d);
    SinglePresentField(d, Eligibility);
  }

  /** The source drops only raw-empty subjects, so a whitespace-only
      subject still yields an eligibility segment with nothing after its
      label. */
  lemma BlankSubjectKeepsEligibility(d: DocumentInput)
    requires OnlyBlankSubject(d)
    ensures BuildDocument(d) == "passage: eligibility: "
  {
    BlankSubjectSegments(d);
    EmptyEligibilityPassage();
    var passage := Join(RenderAll(Segments(d)), " | ");
    assert passage == "eligibility: ";
    assert BuildDocument(d) == "passage: " + passage;
    EligibilityOnlyDocument();
  }

  /** A passage with the eligibility segment alone. */
  lemma EligibilityOnlyPassage(d: DocumentInput, content: string)
    requires Segments(d) == [Segment(Eligibility, content)]
    ensures BuildDocument(d) == "passage: eligibility: " + content
  {
    RenderSingle(Segments(d), Segment(Eligibility, content));
    PassageOf(d);
    EligibilityRendered(content);
  }

  lemma EligibilityRendered(content: string)
    ensures "passage: " + Render(Segment(Eligibility, content)) == "passage: eligibility: " + content
  {
    assert Render(Segment(Eligibility, content)) == "eligibility: " + content;
    PassageConcat(content);
  }

  lemma RenderSingle(segs: seq<Segment>, s: Segment)
    requires segs == [s]
    ensures Join(RenderAll(segs), " | ") == Render(s)
  {
    var rendered := RenderAll(segs);
    assert |rendered| == 1 && rendered[0] == Render(s);
  }

  /** A document with a segment is "passage: " and its joined segments. */
  lemma PassageOf(d: DocumentInput)
    requires |Segments(d)| > 0
    ensures BuildDocument(d) == "passage: " + Join(RenderAll(Segments(d)), " | ")
  {
    JoinNonEmpty(RenderAll(Segments(d)), " | ");
  }

  lemma PassageConcat(content: string)
    ensures "passage: " + ("eligibility: " + content) == "passage: eligibility: " + content
  {
  }

  lemma EligibilityOnlyDocument()
    ensures "passage: " + "eligibility: " == "passage: eligibility: "
  {
  }

  lemma EmptyEligibilityPassage()
    ensures Join(RenderAll([Segment(Eligibility, "")]), " | ") == "eligibility: "
  {
    var rendered := RenderAll([Segment(Eligibility, "")]);
    assert Render(Segment(Eligibility, "")) == "eligibility: ";
    assert rendered == ["eligibility: "] by {
      assert |rendered| == 1 && rendered[0] == Render(Segment(Eligibility, ""));
    }
  }

  // ---------------------------------------------------------------------------
  // QueryEmbeddingBuilder.build_query
  // ---------------------------------------------------------------------------

  const QueryPrefix: string := "query: "

  /** The normalised input behind the "query: " prefix; "" for blank input. */
  function BuildQuery(userInput: string): (r: string)
    ensures r == "" <==> AllSpace(userInput)
    ensures r != "" ==> StartsWith(r, QueryPrefix)
    ensures r != "" ==> IsNormalized(r[|QueryPrefix|..]) && Split(r[|QueryPrefix|..]) == Split(userInput)
  {
    var cleaned := Normalize(Some(userInput));
    if cleaned == "" then "" else
      var r := QueryPrefix + cleaned;
      assert r[|QueryPrefix|..] == cleaned;
      r
  }

  /** A query depends only on the words of the input, so re-normalising the
      input first gives the same query. */
  lemma BuildQueryIgnoresLayout(a: string, b: string)
    requires Split(a) == Split(b)
    ensures BuildQuery(a) == BuildQuery(b)
  {
    CollapseUnique(b, Collapse(a));
    NormalizeIsCollapse(a);
    NormalizeIsCollapse(b);
    assert Normalize(Some(a)) == Normalize(Some(b));
  }

  lemma NormalizeIsCollapse(s: string)
    ensures Normalize(Some(s)) == Collapse(s)
  {
    if s == "" {
      assert AllSpace(s);
    }
  }

  lemma BuildQueryOfNormalized(userInput: string)
    ensures BuildQuery(Normalize(Some(userInput))) == BuildQuery(userInput)
  {
    BuildQueryIgnoresLayout(Normalize(Some(userInput)), userInput);
  }
}

/** Allowance workflows (src/services/allowance_service.py): cleaning free
    text, packing subjects into the comma-joined column, creating one
    allowance, and replacing the whole table with a parser's output. A
    rejected payload or parse leaves the table untouched. */
module AllowanceService {

  import opened Wrappers
  import opened Text
  import opened AllowanceErrors
  import opened AllowanceRepository
  import opened ParserBase

  // ---------------------------------------------------------------------------
  // _clean_text
  // ---------------------------------------------------------------------------

  /** `_clean_text`: whitespace runs collapse to one space and the ends are
      trimmed; the visible characters are kept, in order. */
  function CleanText(value: string): (r: string)
    ensures IsNormalized(r)
    ensures Split(r) == Split(value)
    ensures r == "" <==> AllSpace(value)
    ensures NonSpaceChars(r) == NonSpaceChars(value)
  {
    CollapseKeepsContent(value);
    Collapse(value)
  }

  /** Cleaning is idempotent. */
  lemma CleanTextIdempotent(value: string)
    ensures CleanText(CleanText(value)) == CleanText(value)
  {
    CollapseIdempotent(value);
  }

  /** Text already in normal form is left as it is. */
  lemma CleanTextOfNormalized(value: string)
    requires IsNormalized(value)
    ensures CleanText(value) == value
  {
    CollapseUnique(value, value);
  }

  // ---------------------------------------------------------------------------
  // _normalize_subjects
  // ---------------------------------------------------------------------------

  /** The subjects that are non-empty after cleaning, cleaned, in order. */
  function CleanSubjects(subjects: seq<string>): (r: seq<string>)
    ensures |r| <= |subjects|
    ensures forall i :: 0 <= i < |r| ==> r[i] != ""
    ensures Picks(subjects, NonEmptyOf(CleanText), r)
  {
    FilteredPicks(subjects, CleanText);
    Filtered(subjects, CleanText)
  }

  /** No subject survives exactly when every subject is blank. */
  lemma CleanSubjectsEmpty(subjects: seq<string>)
    ensures CleanSubjects(subjects) == [] <==> forall i :: 0 <= i < |subjects| ==> AllSpace(subjects[i])
  {
    FilteredEmpty(subjects, CleanText);
  }

  /** Every kept subject is in normal form. */
  lemma CleanSubjectsNormalized(subjects: seq<string>)
    ensures forall i :: 0 <= i < |CleanSubjects(subjects)| ==> IsNormalized(CleanSubjects(subjects)[i])
  {
    FilteredKeeps(subjects, CleanText, IsNormalized);
  }

  const SubjectSeparator := ','

  /** `_normalize_subjects`: no subjects, or none that survives cleaning,
      is stored as NULL; otherwise the cleaned subjects are joined with
      commas. */
  function NormalizeSubjects(subjects: Option<seq<string>>): (r: Option<string>)
    ensures r.None? <==> subjects.None? || forall i :: 0 <= i < |subjects.value| ==> AllSpace(subjects.value[i])
    ensures r.Some? ==> r.value != "" && r.value == Join(CleanSubjects(subjects.value), [SubjectSeparator])
  {
    if subjects.None? || subjects.value == [] then None
    else
      var cleaned := CleanSubjects(subjects.value);
      CleanSubjectsEmpty(subjects.value);
      if cleaned == [] then None
      else
        JoinKeepsFirst(cleaned, [SubjectSeparator]);
        Some(Join(cleaned, [SubjectSeparator]))
  }

  /** A join is at least as long as its first part. */
  lemma JoinKeepsFirst(ws: seq<string>, sep: string)
    requires |ws| > 0
    ensures |Join(ws, sep)| >= |ws[0]|
  {
  }

  /** Python's `s.split(c)` for a one-character separator. */
  function SplitOn(s: string, c: char): (r: seq<string>)
    ensures |r| >= 1
    ensures forall i :: 0 <= i < |r| ==> c !in r[i]
  {
    if |s| == 0 then [""]
    else
      var rest := SplitOn(s[1..], c);
      if s[0] == c then [""] + rest
      else [[s[0]] + rest[0]] + rest[1..]
  }

  /** A separator-free prefix joins the first piece. */
  lemma {:induction false} SplitOnPrefix(w: string, t: string, c: char)
    requires c !in w
    ensures var rest := SplitOn(t, c);
      SplitOn(w + t, c) == [w + rest[0]] + rest[1..]
  {
    if |w| > 0 {
      SplitOnPrefix(w[1..], t, c);
      assert (w + t)[0] == w[0];
      assert (w + t)[1..] == w[1..] + t;
      assert [w[0]] + (w[1..] + SplitOn(t, c)[0]) == w + SplitOn(t, c)[0];
    } else {
      var rest := SplitOn(t, c);
      assert w + t == t;
      assert w + rest[0] == rest[0];
      assert rest == [rest[0]] + rest[1..];
    }
  }

  /** Splitting undoes joining, provided no part contains the separator. */
  lemma {:induction false} SplitOnJoin(ws: seq<string>, c: char)
    requires |ws| > 0
    requires forall i :: 0 <= i < |ws| ==> c !in ws[i]
    ensures SplitOn(Join(ws, [c]), c) == ws
  {
    if |ws| == 1 {
      SplitOnPrefix(ws[0], "", c);
      assert ws[0] + "" == ws[0];
    } else {
      var tail := Join(ws[1..], [c]);
      SplitOnJoin(ws[1..], c);
      assert Join(ws, [c]) == ws[0] + ([c] + tail);
      SplitOnPrefix(ws[0], [c] + tail, c);
      assert ([c] + tail)[1..] == tail;
      assert SplitOn([c] + tail, c) == [""] + ws[1..];
      assert ws[0] + "" == ws[0];
      assert ws == [ws[0]] + ws[1..];
    }
  }

  /** No two separators are adjacent. */
  predicate NoDoubled(s: string, c: char) {
    forall i :: 0 <= i < |s| - 1 ==> !(s[i] == c && s[i + 1] == c)
  }

  /** Joining non-empty, separator-free parts gives a string that neither
      starts nor ends with the separator and never repeats it. */
  lemma {:induction false} JoinShape(ws: seq<string>, c: char)
    requires |ws| > 0
    requires forall i :: 0 <= i < |ws| ==> ws[i] != "" && c !in ws[i]
    ensures var s := Join(ws, [c]);
      s != "" && s[0] != c && s[|s| - 1] != c && NoDoubled(s, c)
  {
    var w := ws[0];
    assert w[0] in w;
    if |ws| > 1 {
      var t := Join(ws[1..], [c]);
      JoinShape(ws[1..], c);
      var s := w + [c] + t;
      assert Join(ws, [c]) == s;
      assert s[|s| - 1] == t[|t| - 1];
      forall i | 0 <= i < |s| - 1 ensures !(s[i] == c && s[i + 1] == c) {
        if i < |w| {
          assert s[i] == w[i] && w[i] in w;
        } else if i > |w| {
          assert s[i] == t[i - |w| - 1] && s[i + 1] == t[i - |w|];
        }
      }
    } else {
      assert w[|w| - 1] in w;
      forall i | 0 <= i < |w| - 1 ensures !(w[i] == c && w[i + 1] == c) {
        assert w[i] in w;
      }
    }
  }

  /** Cleaning never introduces a visible character. */
  lemma CleanTextKeepsAbsent(value: string, c: char)
    requires !IsSpace(c) && c !in value
    ensures c !in CleanText(value)
  {
    NonSpaceCharsMember(value, c);
    NonSpaceCharsMember(CleanText(value), c);
  }

  /** Subjects free of a visible character stay free of it. */
  lemma CleanSubjectsKeepAbsent(subjects: seq<string>, c: char)
    requires !IsSpace(c)
    requires forall i :: 0 <= i < |subjects| ==> c !in subjects[i]
    ensures forall i :: 0 <= i < |CleanSubjects(subjects)| ==> c !in CleanSubjects(subjects)[i]
  {
    forall i | 0 <= i < |subjects| ensures c !in CleanText(subjects[i]) {
      CleanTextKeepsAbsent(subjects[i], c);
    }
    FilteredKeeps(subjects, CleanText, s => c !in s);
  }

  /** When no subject contains a comma, the stored column neither starts
      nor ends with a comma, never holds two in a row, and splitting it on
      commas gives back the cleaned subjects. */
  lemma NormalizeSubjectsRoundTrip(subjects: seq<string>)
    requires forall i :: 0 <= i < |subjects| ==> SubjectSeparator !in subjects[i]
    ensures var r := NormalizeSubjects(Some(subjects));
      r.Some? ==>
        && r.value[0] != SubjectSeparator
        && r.value[|r.value| - 1] != SubjectSeparator
        && NoDoubled(r.value, SubjectSeparator)
        && SplitOn(r.value, SubjectSeparator) == CleanSubjects(subjects)
  {
    if NormalizeSubjects(Some(subjects)).Some? {
      var cleaned := CleanSubjects(subjects);
      assert cleaned != [];
      CleanSubjectsKeepAbsent(subjects, SubjectSeparator);
      JoinedSubjects(cleaned);
    }
  }

  /** The column built from non-empty, comma-free subjects has the shape
      of a comma list and splits back into them. */
  lemma JoinedSubjects(ws: seq<string>)
    requires |ws| > 0
    requires forall i :: 0 <= i < |ws| ==> ws[i] != "" && SubjectSeparator !in ws[i]
    ensures var s := Join(ws, [SubjectSeparator]);
      && s != "" && s[0] != SubjectSeparator && s[|s| - 1] != SubjectSeparator
      && NoDoubled(s, SubjectSeparator)
      && SplitOn(s, SubjectSeparator) == ws
  {
    JoinShape(ws, SubjectSeparator);
    SplitOnJoin(ws, SubjectSeparator);
  }

  /** Without that premise the shape fails: a lone comma subject is stored
      as "," and does not split back into one subject. */
  lemma CommaSubjectBreaksShape()
    ensures NormalizeSubjects(Some([","])) == Some(",")
    ensures SplitOn(",", SubjectSeparator) == ["", ""]
  {
    var s := ",";
    assert !IsSpace(s[0]);
    CleanTextOfNormalized(s);
    assert CleanSubjects([s]) == [s] by {
      assert [s][1..] == [];
    }
  }

  // ---------------------------------------------------------------------------
  // create_allowance
  // ---------------------------------------------------------------------------

  /** The fields `create_allowance` reads from its payload. */
  datatype CreatePayload = CreatePayload(name: string, npaNumber: string, subjects: Option<seq<string>>)

  const RequiredDetail := "Allowance name and NPA number are required."

  /** The row built from raw name, number and subjects. */
  function CleanRow(name: string, npaNumber: string, subjects: Option<seq<string>>): (n: NewRow)
    ensures n.name == CleanText(name) && n.npaNumber == CleanText(npaNumber)
    ensures n.subjects == NormalizeSubjects(subjects)
  {
    NewRow(CleanText(name), CleanText(npaNumber), NormalizeSubjects(subjects))
  }

  /** `create_allowance`: a payload whose name or NPA number is blank is a
      validation error and nothing is stored; otherwise one row holding the
      cleaned values is added. */
  function CreateAllowance(t: Table, p: CreatePayload, now: int): (r: (Table, Result<Row, AllowanceError>))
    ensures r.1.Failure? <==> AllSpace(p.name) || AllSpace(p.npaNumber)
    ensures r.1.Failure? ==> r.0 == t && r.1.error == AllowanceError(Validation, RequiredDetail)
    ensures r.1.Success? ==>
      var row := r.1.value;
      && r.0.rows == t.rows + [row]
      && row.id == t.nextId && row.createdAt == now
      && row.name == CleanText(p.name) && row.npaNumber == CleanText(p.npaNumber)
      && row.subjects == NormalizeSubjects(p.subjects)
      && row.name != "" && row.npaNumber != ""
  {
    var n := CleanRow(p.name, p.npaNumber, p.subjects);
    if n.name == "" || n.npaNumber == "" then (t, Failure(Raise(Validation, Some(RequiredDetail))))
    else
      var c := Create(t, n, now);
      (c.0, Success(c.1))
  }

  /** Creating keeps identifiers unique. */
  lemma CreateAllowanceKeepsValid(t: Table, p: CreatePayload, now: int)
    requires Valid(t)
    ensures Valid(CreateAllowance(t, p, now).0)
  {
    var n := CleanRow(p.name, p.npaNumber, p.subjects);
    if n.name != "" && n.npaNumber != "" {
      assert CreateAllowance(t, p, now).0 == Create(t, n, now).0;
    }
  }

  // ---------------------------------------------------------------------------
  // parse_and_replace
  // ---------------------------------------------------------------------------

  /** What `parse_and_replace` raises: one of its own parsing errors, or
      an error of the parser's run, unchanged. */
  datatype ReplaceError = Rejected(error: AllowanceError) | ParserRaised(message: string)

  const MissingFieldsDetail := "Parsed allowance lacks required fields."

  /** A parsed item whose name and NPA number survive cleaning. */
  predicate Complete(item: ParsedAllowance) {
    !AllSpace(item.name) && !AllSpace(item.npaNumber)
  }

  function CleanItem(item: ParsedAllowance): NewRow {
    CleanRow(item.name, item.npaNumber, item.subjects)
  }

  /** A cleaned row the service accepts: name and NPA number non-empty. */
  predicate Accepted(n: NewRow) {
    n.name != "" && n.npaNumber != ""
  }

  /** A parsed item is complete exactly when its cleaned row is
      accepted. */
  lemma CompleteIffAccepted(item: ParsedAllowance)
    ensures Complete(item) <==> Accepted(CleanItem(item))
  {
  }

  /** The cleaning loop: every item cleaned, or `None` at the first one
      whose cleaned row is not accepted. */
  function CleanAll(items: seq<ParsedAllowance>, clean: ParsedAllowance -> NewRow): (r: Option<seq<NewRow>>)
    ensures r.Some? <==> forall i :: 0 <= i < |items| ==> Accepted(clean(items[i]))
    ensures r.Some? ==> |r.value| == |items| && forall i :: 0 <= i < |items| ==> r.value[i] == clean(items[i])
  {
    if |items| == 0 then Some([])
    else
      var n := clean(items[0]);
      if !Accepted(n) then None
      else
        match CleanAll(items[1..], clean)
        case None =>
          assert exists i :: 1 <= i < |items| && !Accepted(clean(items[i])) by {
            var j :| 0 <= j < |items[1..]| && !Accepted(clean(items[1..][j]));
            assert items[1..][j] == items[j + 1];
          }
          None
        case Some(rest) => Some([n] + rest)
  }

  /** Every parsed item cleans to an accepted row. */
  predicate AllAccepted(items: seq<ParsedAllowance>) {
    forall i :: 0 <= i < |items| ==> Accepted(CleanItem(items[i]))
  }

  /** `rows` hold, position by position, the cleaned fields of `items`. */
  predicate StoresCleaned(rows: seq<Row>, items: seq<ParsedAllowance>) {
    && |rows| == |items|
    && forall i :: 0 <= i < |items| ==>
         var n := CleanItem(items[i]);
         && Accepted(n)
         && rows[i].name == n.name
         && rows[i].npaNumber == n.npaNumber
         && rows[i].subjects == n.subjects
  }

  /** `parse_and_replace`: the parser's failure propagates; an empty parse
      or an incomplete item is a parsing error; in every failing case the
      table is untouched. Otherwise the table holds exactly the cleaned
      items, in parse order. */
  function ParseAndReplace(t: Table, parsed: Result<seq<ParsedAllowance>, string>, now: int)
    : (r: (Table, Result<seq<Row>, ReplaceError>))
    ensures parsed.Failure? ==> r == (t, Failure(ParserRaised(parsed.error)))
    ensures parsed == Success([]) ==> r == (t, Failure(Rejected(AllowanceError(Parsing, DefaultDetail(Parsing)))))
    ensures parsed.Success? && parsed.value != [] && (exists i :: 0 <= i < |parsed.value| && !Accepted(CleanItem(parsed.value[i]))) ==>
      r == (t, Failure(Rejected(AllowanceError(Parsing, MissingFieldsDetail))))
    ensures parsed.Success? && parsed.value != [] && AllAccepted(parsed.value) ==> r.1.Success?
    ensures r.1.Failure? ==> r.0 == t
    ensures r.1.Success? ==>
      && parsed.Success? && parsed.value != []
      && r.0.rows == r.1.value
      && Valid(r.0)
      && StoresCleaned(r.1.value, parsed.value)
  {
    match parsed
    case Failure(e) => (t, Failure(ParserRaised(e)))
    case Success(items) =>
      if items == [] then (t, Failure(Rejected(Raise(Parsing, None))))
      else
        match CleanAll(items, CleanItem)
        case None => (t, Failure(Rejected(Raise(Parsing, Some(MissingFieldsDetail)))))
        case Some(rows) =>
          var replaced := ReplaceAll(t, rows, now);
          assert StoresCleaned(replaced.1, items);
          (replaced.0, Success(replaced.1))
  }

  /** An item whose name or NPA number is blank rejects the whole parse,
      and the table is untouched. */
  lemma IncompleteItemRejectsParse(t: Table, items: seq<ParsedAllowance>, now: int, k: nat)
    requires k < |items| && !Complete(items[k])
    ensures ParseAndReplace(t, Success(items), now) == (t, Failure(Rejected(AllowanceError(Parsing, MissingFieldsDetail))))
  {
    CompleteIffAccepted(items[k]);
  }
}

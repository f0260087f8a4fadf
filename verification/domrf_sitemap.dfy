/** The sitemap parser of дом.рф (app/parsers/domrf.py): which sitemap
    links are parsed, how header and law-number texts become allowance
    candidates, and how candidates are cleaned and accepted. HTTP, XML and
    HTML parsing are left to the caller: the sitemap is given by the texts
    of its `loc` elements and a page by its headers, the texts following
    each header, and its law-number spans. */
module DomRfSitemap {

  import opened Wrappers
  import opened Text

  // ---------------------------------------------------------------------------
  // Choosing from a sequence
  // ---------------------------------------------------------------------------

  /** Choosing distributes over concatenation: the order of `xs` is kept. */
  lemma {:induction false} ChosenAppend<A, B>(xs: seq<A>, ys: seq<A>, f: A -> Option<B>)
    ensures Chosen(xs + ys, f) == Chosen(xs, f) + Chosen(ys, f)
  {
    if |xs| == 0 {
      assert xs + ys == ys;
    } else {
      var head: seq<B> := if f(xs[0]).Some? then [f(xs[0]).value] else [];
      assert (xs + ys)[0] == xs[0];
      assert (xs + ys)[1..] == xs[1..] + ys;
      assert Chosen(xs + ys, f) == head + Chosen(xs[1..] + ys, f);
      assert Chosen(xs, f) == head + Chosen(xs[1..], f);
      ChosenAppend(xs[1..], ys, f);
    }
  }

  /** Nothing is chosen exactly when `f` yields nothing for every item. */
  lemma {:induction false} ChosenEmpty<A, B>(xs: seq<A>, f: A -> Option<B>)
    ensures Chosen(xs, f) == [] <==> forall i :: 0 <= i < |xs| ==> f(xs[i]).None?
  {
    if |xs| > 0 {
      ChosenEmpty(xs[1..], f);
      assert forall i :: 1 <= i < |xs| ==> xs[i] == xs[1..][i - 1];
    }
  }

  /** A value is chosen exactly when `f` yields it for some item. */
  lemma {:induction false} ChosenMember<A, B>(xs: seq<A>, f: A -> Option<B>, y: B)
    ensures y in Chosen(xs, f) <==> exists i :: 0 <= i < |xs| && f(xs[i]) == Some(y)
  {
    if |xs| > 0 {
      ChosenMember(xs[1..], f, y);
      if y in Chosen(xs[1..], f) {
        var i :| 0 <= i < |xs[1..]| && f(xs[1..][i]) == Some(y);
        assert f(xs[i + 1]) == Some(y);
      }
      if exists i :: 0 <= i < |xs| && f(xs[i]) == Some(y) {
        var i :| 0 <= i < |xs| && f(xs[i]) == Some(y);
        if i > 0 {
          assert f(xs[1..][i - 1]) == Some(y);
        }
      }
    }
  }

  /** When `f` yields a value for every item, every item is kept: the
      choice is `f` applied item by item. */
  lemma {:induction false} ChosenAll<A, B>(xs: seq<A>, f: A -> Option<B>)
    requires forall i :: 0 <= i < |xs| ==> f(xs[i]).Some?
    ensures |Chosen(xs, f)| == |xs|
    ensures forall k :: 0 <= k < |xs| ==> f(xs[k]) == Some(Chosen(xs, f)[k])
  {
    if |xs| > 0 {
      assert forall i :: 0 <= i < |xs[1..]| ==> xs[1..][i] == xs[i + 1];
      ChosenAll(xs[1..], f);
      var rest := Chosen(xs[1..], f);
      assert Chosen(xs, f) == [f(xs[0]).value] + rest;
      forall k | 0 <= k < |xs| ensures f(xs[k]) == Some(Chosen(xs, f)[k]) {
        if k > 0 {
          assert Chosen(xs, f)[k] == rest[k - 1];
        }
      }
    }
  }

  /** A property of every value `f` yields holds of every chosen value. */
  lemma {:induction false} ChosenKeeps<A, B>(xs: seq<A>, f: A -> Option<B>, p: B -> bool)
    requires forall i :: 0 <= i < |xs| && f(xs[i]).Some? ==> p(f(xs[i]).value)
    ensures forall k :: 0 <= k < |Chosen(xs, f)| ==> p(Chosen(xs, f)[k])
  {
    if |xs| > 0 {
      assert forall i :: 0 <= i < |xs[1..]| ==> xs[1..][i] == xs[i + 1];
      ChosenKeeps(xs[1..], f, p);
    }
  }

  // ---------------------------------------------------------------------------
  // Sources
  // ---------------------------------------------------------------------------

  /** The site's root when none is given. */
  const DefaultRootUrl := "https://xn--80az8a.xn--p1ai"

  /** The root as the parser keeps it: `root_url.rstrip("/")`. */
  function RootUrl(given: string): (r: string)
    ensures r == "" || r[|r| - 1] != '/'
    ensures StartsWith(given, r)
    ensures forall i :: |r| <= i < |given| ==> given[i] == '/'
  {
    TrimEndChar(given, '/')
  }

  /** Keeping a root twice is keeping it once. */
  lemma RootUrlIdempotent(given: string)
    ensures RootUrl(RootUrl(given)) == RootUrl(given)
  {
    var r := RootUrl(given);
    if |r| > 0 {
      assert r[|r| - 1] != '/';
    }
  }

  /** The stems that mark a page about social support: support, subsidy,
      benefit, mortgage, privilege. */
  const Keywords: seq<string> := ["поддерж", "субсид", "пособ", "ипотек", "льгот"]

  predicate MentionsSupport(url: string) {
    exists k :: 0 <= k < |Keywords| && Contains(Lower(url), Keywords[k])
  }

  /** A `loc` element's text, kept when it is present, non-empty and
      mentions support. */
  function SupportLink(loc: Option<string>): (r: Option<string>)
    ensures r.Some? <==> loc.Some? && loc.value != "" && MentionsSupport(loc.value)
    ensures r.Some? ==> r == loc
  {
    if loc.Some? && loc.value != "" && MentionsSupport(loc.value) then loc else None
  }

  /** The support links of a sitemap, in sitemap order. */
  function SupportLinks(locs: seq<Option<string>>): (r: seq<string>)
    ensures forall k :: 0 <= k < |r| ==> r[k] != "" && MentionsSupport(r[k])
  {
    ChosenKeeps(locs, SupportLink, (u: string) => u != "" && MentionsSupport(u));
    Chosen(locs, SupportLink)
  }

  /** A link is among the support links exactly when the sitemap lists it
      and it mentions support. */
  lemma SupportLinksMembers(locs: seq<Option<string>>, u: string)
    ensures u in SupportLinks(locs) <==> Some(u) in locs && u != "" && MentionsSupport(u)
  {
    ChosenMember(locs, SupportLink, u);
    if Some(u) in locs && u != "" && MentionsSupport(u) {
      var i :| 0 <= i < |locs| && locs[i] == Some(u);
      assert SupportLink(locs[i]) == Some(u);
    }
  }

  /** `fetch_sources`: the sitemap's support links, in order; the root alone
      when the sitemap does not load (`None`) or lists none. */
  function FetchSources(root: string, sitemap: Option<seq<Option<string>>>): (r: seq<string>)
    ensures |r| > 0
    ensures sitemap.None? ==> r == [root]
    ensures sitemap.Some? ==>
      && ((forall i :: 0 <= i < |sitemap.value| ==> SupportLink(sitemap.value[i]).None?) ==> r == [root])
      && ((exists i :: 0 <= i < |sitemap.value| && SupportLink(sitemap.value[i]).Some?) ==> r == SupportLinks(sitemap.value))
  {
    if sitemap.None? then [root]
    else
      var filtered := SupportLinks(sitemap.value);
      ChosenEmpty(sitemap.value, SupportLink);
      if filtered == [] then [root] else filtered
  }

  // ---------------------------------------------------------------------------
  // Normalisers
  // ---------------------------------------------------------------------------

  /** The number sign. */
  const Sign := '№'

  /** `value.replace("№", "№ ")`. */
  function SpaceAfterSign(s: string): (r: string)
    ensures forall i :: 0 <= i < |r| && r[i] == Sign ==> i + 1 < |r| && r[i + 1] == ' '
  {
    if |s| == 0 then ""
    else
      var piece := if s[0] == Sign then [Sign, ' '] else [s[0]];
      var rest := SpaceAfterSign(s[1..]);
      assert forall i :: |piece| <= i < |piece + rest| ==> (piece + rest)[i] == rest[i - |piece|];
      piece + rest
  }

  /** Dropping the one space after each sign: the inverse of
      `SpaceAfterSign`. */
  function DropSpaceAfterSign(s: string): string
    decreases |s|
  {
    if |s| == 0 then ""
    else if |s| >= 2 && s[0] == Sign && s[1] == ' ' then [Sign] + DropSpaceAfterSign(s[2..])
    else [s[0]] + DropSpaceAfterSign(s[1..])
  }

  /** The replacement loses nothing: dropping the inserted spaces restores
      the text. */
  lemma {:induction false} SpaceAfterSignRoundTrip(s: string)
    ensures DropSpaceAfterSign(SpaceAfterSign(s)) == s
  {
    if |s| > 0 {
      SpaceAfterSignRoundTrip(s[1..]);
      var rest := SpaceAfterSign(s[1..]);
      if s[0] == Sign {
        assert SpaceAfterSign(s) == [Sign, ' '] + rest;
        assert ([Sign, ' '] + rest)[2..] == rest;
      } else {
        assert SpaceAfterSign(s) == [s[0]] + rest;
        assert ([s[0]] + rest)[1..] == rest;
      }
    }
  }

  /** The replacement adds only whitespace. */
  lemma {:induction false} SpaceAfterSignContent(s: string)
    ensures NonSpaceChars(SpaceAfterSign(s)) == NonSpaceChars(s)
  {
    if |s| > 0 {
      SpaceAfterSignContent(s[1..]);
      var rest := SpaceAfterSign(s[1..]);
      var piece: string := if s[0] == Sign then [Sign, ' '] else [s[0]];
      assert SpaceAfterSign(s) == piece + rest;
      NonSpaceCharsAppend(piece, rest);
      assert s == [s[0]] + s[1..];
      NonSpaceCharsAppend([s[0]], s[1..]);
      if s[0] == Sign {
        assert piece == [Sign] + [' '];
        NonSpaceCharsAppend([Sign], [' ']);
      }
    }
  }

  /** Every sign that is not the last character is followed by exactly one
      space. */
  predicate SignSpaced(s: string) {
    forall i :: 0 <= i < |s| - 1 && s[i] == Sign ==> s[i + 1] == ' ' && (i + 2 < |s| ==> !IsSpace(s[i + 2]))
  }

  /** `_normalize_npa`: collapse the whitespace, put a space after every
      sign, collapse again. */
  function NormalizeNpa(value: string): (r: string)
    ensures IsNormalized(r)
    ensures r == "" <==> AllSpace(value)
    ensures NonSpaceChars(r) == NonSpaceChars(value)
    ensures Split(r) == Split(SpaceAfterSign(Collapse(value)))
    ensures Sign !in value ==> r == Collapse(value)
  {
    var spaced := SpaceAfterSign(Collapse(value));
    SpaceAfterSignVisible(Collapse(value));
    NormalizeNpaContent(value);
    NormalizeNpaWithoutSign(value);
    Collapse(spaced)
  }

  /** Without a sign the replacement changes nothing. */
  lemma {:induction false} SpaceAfterSignNoSign(s: string)
    requires Sign !in s
    ensures SpaceAfterSign(s) == s
  {
    if |s| > 0 {
      assert s[0] != Sign;
      assert Sign !in s[1..] by {
        assert forall i :: 0 <= i < |s[1..]| ==> s[1..][i] == s[i + 1];
      }
      SpaceAfterSignNoSign(s[1..]);
      assert s == [s[0]] + s[1..];
    }
  }

  /** A text without a sign is only collapsed. */
  lemma NormalizeNpaWithoutSign(value: string)
    ensures Sign !in value ==> Collapse(SpaceAfterSign(Collapse(value))) == Collapse(value)
  {
    if Sign in value {
      return;
    }
    NonSpaceCharsMember(value, Sign);
    CollapseKeepsContent(value);
    NonSpaceCharsMember(Collapse(value), Sign);
    SpaceAfterSignNoSign(Collapse(value));
    CollapseIdempotent(value);
  }

  /** The replacement leaves a text all whitespace exactly when it was
      empty, for a text that does not start with whitespace. */
  lemma SpaceAfterSignVisible(s: string)
    requires s == "" || !IsSpace(s[0])
    ensures AllSpace(SpaceAfterSign(s)) <==> s == ""
  {
    if s != "" {
      assert SpaceAfterSign(s)[0] == s[0];
    }
  }

  lemma NormalizeNpaContent(value: string)
    ensures NonSpaceChars(Collapse(SpaceAfterSign(Collapse(value)))) == NonSpaceChars(value)
  {
    CollapseKeepsContent(value);
    SpaceAfterSignContent(Collapse(value));
    CollapseKeepsContent(SpaceAfterSign(Collapse(value)));
  }

  /** `_normalize_npa` spaces the number sign: every sign not at the end of
      the result is followed by exactly one space. */
  lemma NormalizeNpaSpacing(value: string)
    ensures SignSpaced(NormalizeNpa(value))
  {
    var spaced := SpaceAfterSign(Collapse(value));
    var r := NormalizeNpa(value);
    SplitSignLast(spaced);
    JoinSignSpaced(Split(spaced));
    CollapseIsJoin(spaced);
    forall i | 0 <= i < |r| - 1 && r[i] == Sign
      ensures r[i + 1] == ' ' && (i + 2 < |r| ==> !IsSpace(r[i + 2]))
    {
      assert IsSpace(r[i + 1]);
    }
  }

  /** A sign can only be the last character of a word. */
  predicate SignLast(w: string) {
    forall i :: 0 <= i < |w| - 1 ==> w[i] != Sign
  }

  /** Every sign is followed by whitespace or ends the text. */
  predicate SignBeforeSpace(s: string) {
    forall i :: 0 <= i < |s| - 1 && s[i] == Sign ==> IsSpace(s[i + 1])
  }

  /** Every sign but a final one is followed by a plain space. */
  predicate SignThenSpace(s: string) {
    forall i :: 0 <= i < |s| - 1 && s[i] == Sign ==> s[i + 1] == ' '
  }

  /** Collapsing joins the words with single spaces. */
  lemma CollapseIsJoin(s: string)
    ensures Collapse(s) == Join(Split(s), " ")
  {
    JoinWordsNormalized(Split(s));
  }

  /** When every sign is followed by whitespace, a sign ends any word it is
      in. */
  lemma {:induction false} SplitSignLast(s: string)
    requires SignBeforeSpace(s)
    ensures forall k :: 0 <= k < |Split(s)| ==> SignLast(Split(s)[k])
    decreases |s|
  {
    if |s| == 0 {
    } else if IsSpace(s[0]) {
      SignBeforeSpaceSuffix(s, 1);
      SplitSignLast(s[1..]);
    } else {
      var w := WordPrefix(s);
      var u := s[|w|..];
      assert SignLast(w) by {
        forall i | 0 <= i < |w| - 1 ensures w[i] != Sign {
          assert w[i] == s[i] && w[i + 1] == s[i + 1];
          assert !IsSpace(w[i + 1]);
        }
      }
      SignBeforeSpaceSuffix(s, |w|);
      SplitSignLast(u);
      assert Split(s) == [w] + Split(u);
    }
  }

  lemma SignBeforeSpaceSuffix(s: string, k: nat)
    requires SignBeforeSpace(s) && k <= |s|
    ensures SignBeforeSpace(s[k..])
  {
    forall i | 0 <= i < |s[k..]| - 1 && s[k..][i] == Sign ensures IsSpace(s[k..][i + 1]) {
      assert s[k..][i] == s[k + i] && s[k..][i + 1] == s[k + i + 1];
    }
  }

  /** Joining words that end in their only sign puts a space after every
      sign but a final one. */
  lemma {:induction false} JoinSignSpaced(ws: seq<string>)
    requires forall k :: 0 <= k < |ws| ==> SignLast(ws[k])
    ensures SignThenSpace(Join(ws, " "))
  {
    if |ws| == 1 {
      assert Join(ws, " ") == ws[0];
    } else if |ws| > 1 {
      var w := ws[0];
      assert SignLast(w);
      assert forall k :: 0 <= k < |ws[1..]| ==> ws[1..][k] == ws[k + 1];
      JoinSignSpaced(ws[1..]);
      var rest := Join(ws[1..], " ");
      var j := w + " " + rest;
      assert Join(ws, " ") == j;
      forall i | 0 <= i < |j| - 1 ensures j[i] == Sign ==> j[i + 1] == ' ' {
        if i < |w| - 1 {
          assert j[i] == w[i] != Sign;
        } else if i == |w| - 1 {
          assert j[i + 1] == ' ';
        } else if i == |w| {
          assert j[i] == ' ';
        } else {
          var k := i - |w| - 1;
          assert j[i] == rest[k] && j[i + 1] == rest[k + 1];
          assert SignThenSpace(rest);
        }
      }
    }
  }

  /** `_normalize_subjects`: the non-empty normalised subjects, `None` when
      none is left. */
  function NormalizeSubjects(values: seq<string>): (r: Option<seq<string>>)
    ensures r.None? <==> forall i :: 0 <= i < |values| ==> AllSpace(values[i])
    ensures r.Some? ==> |r.value| > 0 && forall k :: 0 <= k < |r.value| ==> r.value[k] != "" && IsNormalized(r.value[k])
    ensures r.Some? ==> Picks(values, NonEmptyOf(Collapse), r.value)
  {
    var cleaned := Filtered(values, Collapse);
    FilteredPicks(values, Collapse);
    FilteredEmpty(values, Collapse);
    FilteredKeeps(values, Collapse, IsNormalized);
    if cleaned == [] then None else Some(cleaned)
  }

  // ---------------------------------------------------------------------------
  // Law numbers
  // ---------------------------------------------------------------------------

  /** The class `[A-Za-zА-Яа-я0-9\-/]`: Latin letters, the Cyrillic letters
      U+0410..U+044F (without Ё and ё), digits, hyphen and slash. */
  predicate IsNumberChar(c: char) {
    || ('A' <= c <= 'Z') || ('a' <= c <= 'z')
    || ('А' <= c <= 'я')
    || ('0' <= c <= '9') || c == '-' || c == '/'
  }

  /** `№\s?[A-Za-zА-Яа-я0-9\-/]+` matches at `i`: a sign, optionally one
      whitespace character, then at least one class character. */
  predicate StartsNumber(text: string, i: int) {
    && 0 <= i < |text| && text[i] == Sign
    && (|| (i + 1 < |text| && IsNumberChar(text[i + 1]))
        || (i + 2 < |text| && IsSpace(text[i + 1]) && IsNumberChar(text[i + 2])))
  }

  /** What the regular expression matches, read on its own: a sign, an
      optional whitespace character and a run of class characters. */
  predicate NumberShape(r: string) {
    && |r| >= 2 && r[0] == Sign
    && (|| (forall k :: 1 <= k < |r| ==> IsNumberChar(r[k]))
        || (|r| >= 3 && IsSpace(r[1]) && forall k :: 2 <= k < |r| ==> IsNumberChar(r[k])))
  }

  /** The length of the run of class characters from `j`. */
  function NumberRun(text: string, j: nat): (n: nat)
    requires j <= |text|
    ensures j + n <= |text|
    ensures forall k :: j <= k < j + n ==> IsNumberChar(text[k])
    ensures j + n == |text| || !IsNumberChar(text[j + n])
    decreases |text| - j
  {
    if j < |text| && IsNumberChar(text[j]) then 1 + NumberRun(text, j + 1) else 0
  }

  /** The first position from `i` where the regular expression matches, or
      -1. */
  function FirstNumberFrom(text: string, i: nat): (k: int)
    ensures k == -1 || (i <= k && StartsNumber(text, k))
    ensures forall j :: i <= j < |text| && (k == -1 || j < k) ==> !StartsNumber(text, j)
    decreases |text| - i
  {
    if i >= |text| then -1
    else if StartsNumber(text, i) then i
    else FirstNumberFrom(text, i + 1)
  }

  /** Where the match at `i` ends: the optional whitespace is taken when a
      class character follows it, then the whole run (`+` is greedy). */
  function NumberEnd(text: string, i: nat): (e: nat)
    requires StartsNumber(text, i)
    ensures i + 2 <= e <= |text|
    ensures NumberShape(text[i..e])
    ensures e == |text| || !IsNumberChar(text[e])
  {
    var j := if IsSpace(text[i + 1]) then i + 2 else i + 1;
    var e := j + NumberRun(text, j);
    assert text[i..e][0] == Sign;
    assert forall k :: j - i <= k < e - i ==> text[i..e][k] == text[i + k];
    e
  }

  /** `_find_npa_number`: the leftmost match of the law-number pattern, or
      "" when there is none. */
  function FindNpaNumber(text: string): (r: string)
    ensures r == "" <==> forall i :: 0 <= i < |text| ==> !StartsNumber(text, i)
    ensures r != "" ==> NumberShape(r)
  {
    var i := FirstNumberFrom(text, 0);
    if i == -1 then "" else text[i..NumberEnd(text, i)]
  }

  /** The number found is the leftmost, longest match: it occurs in the text
      where the pattern first matches, and the character after it (if any)
      cannot extend it. */
  lemma FindNpaNumberLeftmost(text: string)
    ensures var r := FindNpaNumber(text);
      r != "" ==>
        exists i :: && 0 <= i && i + |r| <= |text| && r == text[i..i + |r|]
                    && StartsNumber(text, i)
                    && (forall j :: 0 <= j < i ==> !StartsNumber(text, j))
                    && (i + |r| == |text| || !IsNumberChar(text[i + |r|]))
  {
    var i := FirstNumberFrom(text, 0);
    if i != -1 {
      var e := NumberEnd(text, i);
      assert FindNpaNumber(text) == text[i..e];
    }
  }

  // ---------------------------------------------------------------------------
  // Candidates and allowances
  // ---------------------------------------------------------------------------

  /** The allowance the parser returns (app/dto/allowances.py). */
  datatype AllowanceDto = AllowanceDto(name: string, npaNumber: string, subjects: Option<seq<string>>)

  /** A raw allowance block read from a page. */
  datatype Candidate = Candidate(name: string, npaNumber: string, subjects: seq<string>)

  /** An `h1`..`h4` element: its text and the texts of the `p` and `li`
      elements after it in the document. */
  datatype HeaderBlock = HeaderBlock(text: string, following: seq<string>)

  /** A `span` with a `data-law-number` attribute: the attribute and the
      span's text. */
  datatype LawSpan = LawSpan(lawNumber: string, text: string)

  /** A loaded page, as the candidate extraction reads it. */
  datatype Page = Page(headers: seq<HeaderBlock>, spans: seq<LawSpan>)

  /** The most elements read after a header. */
  const MaxSubjectElements := 5

  /** The longest subject kept is one character shorter than this. */
  const SubjectLengthLimit := 240

  /** One subject: the normalised text when it is non-empty and shorter
      than the limit, otherwise "". */
  function SubjectText(raw: string): (r: string)
    ensures r == "" || (IsNormalized(r) && |r| < SubjectLengthLimit)
  {
    var t := Collapse(raw);
    if |t| < SubjectLengthLimit then t else ""
  }

  /** `_find_subjects`: the short, non-empty texts among the first five
      elements after a header. */
  function FindSubjects(following: seq<string>): (r: seq<string>)
    ensures |r| <= MaxSubjectElements
    ensures forall k :: 0 <= k < |r| ==> r[k] != "" && |r[k]| < SubjectLengthLimit && IsNormalized(r[k])
    ensures Picks(following[..Min(|following|, MaxSubjectElements)], NonEmptyOf(SubjectText), r)
  {
    var read := following[..Min(|following|, MaxSubjectElements)];
    FilteredPicks(read, SubjectText);
    FilteredKeeps(read, SubjectText, (s: string) => s == "" || (IsNormalized(s) && |s| < SubjectLengthLimit));
    Filtered(read, SubjectText)
  }

  /** A header yields a candidate when its normalised text holds a law
      number. */
  function HeaderCandidate(h: HeaderBlock): (r: Option<Candidate>)
    ensures r.Some? <==> FindNpaNumber(Collapse(h.text)) != ""
    ensures r.Some? ==> && r.value.name == Collapse(h.text)
                        && r.value.npaNumber == FindNpaNumber(Collapse(h.text))
                        && r.value.subjects == FindSubjects(h.following)
  {
    var text := Collapse(h.text);
    if text == "" then None
    else
      var number := FindNpaNumber(text);
      if number != "" then Some(Candidate(text, number, FindSubjects(h.following))) else None
  }

  /** A law-number span yields a candidate when both its normalised number
      and its normalised text are non-empty. */
  function SpanCandidate(s: LawSpan): (r: Option<Candidate>)
    ensures r.Some? <==> !AllSpace(s.lawNumber) && !AllSpace(s.text)
    ensures r.Some? ==> r.value == Candidate(Collapse(s.text), NormalizeNpa(s.lawNumber), [])
  {
    var number := NormalizeNpa(s.lawNumber);
    var name := Collapse(s.text);
    if number != "" && name != "" then Some(Candidate(name, number, [])) else None
  }

  /** `_extract_candidates`: the header candidates in document order, then
      the span candidates. */
  function ExtractCandidates(page: Page): (r: seq<Candidate>)
    ensures |r| <= |page.headers| + |page.spans|
    ensures exists n :: 0 <= n <= |r| && Picks(page.headers, HeaderCandidate, r[..n]) && Picks(page.spans, SpanCandidate, r[n..])
  {
    var fromHeaders := Chosen(page.headers, HeaderCandidate);
    var fromSpans := Chosen(page.spans, SpanCandidate);
    var r := fromHeaders + fromSpans;
    var n := |fromHeaders|;
    assert Picks(page.headers, HeaderCandidate, r[..n]) by {
      ChosenPicks(page.headers, HeaderCandidate);
      assert r[..n] == fromHeaders;
    }
    assert Picks(page.spans, SpanCandidate, r[n..]) by {
      ChosenPicks(page.spans, SpanCandidate);
      assert r[n..] == fromSpans;
    }
    r
  }

  /** The candidate acceptance of `parse_source`: name and number are
      normalised and the candidate is kept when neither comes out empty. */
  function Accept(c: Candidate): (r: Option<AllowanceDto>)
    ensures r.Some? <==> !AllSpace(c.name) && !AllSpace(c.npaNumber)
    ensures r.Some? ==> && IsNormalized(r.value.name) && IsNormalized(r.value.npaNumber)
                        && NonSpaceChars(r.value.name) == NonSpaceChars(c.name)
                        && NonSpaceChars(r.value.npaNumber) == NonSpaceChars(c.npaNumber)
                        && Split(r.value.name) == Split(c.name)
                        && r.value.npaNumber == NormalizeNpa(c.npaNumber)
                        && r.value.subjects == NormalizeSubjects(c.subjects)
  {
    var name := Collapse(c.name);
    var number := NormalizeNpa(c.npaNumber);
    CollapseKeepsContent(c.name);
    if name != "" && number != "" then Some(AllowanceDto(name, number, NormalizeSubjects(c.subjects))) else None
  }

  /** `parse_source`: nothing when the page does not load; otherwise the
      accepted candidates in order. */
  function ParseSource(page: Option<Page>): (r: seq<AllowanceDto>)
    ensures page.None? ==> r == []
    ensures forall k :: 0 <= k < |r| ==> r[k].name != "" && r[k].npaNumber != ""
    ensures page.Some? ==> Picks(ExtractCandidates(page.value), Accept, r)
  {
    if page.None? then []
    else
      var candidates := ExtractCandidates(page.value);
      ChosenPicks(candidates, Accept);
      ChosenKeeps(candidates, Accept, (a: AllowanceDto) => a.name != "" && a.npaNumber != "");
      Chosen(candidates, Accept)
  }

  /** Extraction already guarantees what acceptance checks: every candidate
      a page yields is accepted. */
  lemma ExtractedAreAccepted(page: Page)
    ensures forall k :: 0 <= k < |ExtractCandidates(page)| ==> Acceptable(ExtractCandidates(page)[k])
  {
    HeadersAccepted(page.headers);
    SpansAccepted(page.spans);
    AllOfAppend(Chosen(page.headers, HeaderCandidate), Chosen(page.spans, SpanCandidate), Acceptable);
  }

  predicate Acceptable(c: Candidate) {
    Accept(c).Some?
  }

  /** A property of every item of two sequences holds of every item of
      their concatenation. */
  lemma AllOfAppend<T>(xs: seq<T>, ys: seq<T>, p: T -> bool)
    requires forall k :: 0 <= k < |xs| ==> p(xs[k])
    requires forall k :: 0 <= k < |ys| ==> p(ys[k])
    ensures forall k :: 0 <= k < |xs + ys| ==> p((xs + ys)[k])
  {
  }

  lemma HeadersAccepted(headers: seq<HeaderBlock>)
    ensures forall k :: 0 <= k < |Chosen(headers, HeaderCandidate)| ==> Acceptable(Chosen(headers, HeaderCandidate)[k])
  {
    forall i | 0 <= i < |headers| && HeaderCandidate(headers[i]).Some?
      ensures Accept(HeaderCandidate(headers[i]).value).Some?
    {
      HeaderAccepted(headers[i]);
    }
    ChosenKeeps(headers, HeaderCandidate, Acceptable);
  }

  lemma SpansAccepted(spans: seq<LawSpan>)
    ensures forall k :: 0 <= k < |Chosen(spans, SpanCandidate)| ==> Acceptable(Chosen(spans, SpanCandidate)[k])
  {
    forall i | 0 <= i < |spans| && SpanCandidate(spans[i]).Some?
      ensures Accept(SpanCandidate(spans[i]).value).Some?
    {
      SpanAccepted(spans[i]);
    }
    ChosenKeeps(spans, SpanCandidate, Acceptable);
  }

  lemma HeaderAccepted(h: HeaderBlock)
    requires HeaderCandidate(h).Some?
    ensures Accept(HeaderCandidate(h).value).Some?
  {
    var c := HeaderCandidate(h).value;
    assert !IsSpace(c.name[0]);
    assert c.npaNumber[0] == Sign;
  }

  lemma SpanAccepted(s: LawSpan)
    requires SpanCandidate(s).Some?
    ensures Accept(SpanCandidate(s).value).Some?
  {
    var c := SpanCandidate(s).value;
    assert !IsSpace(c.name[0]);
    assert !IsSpace(c.npaNumber[0]);
  }

  /** So a loaded page yields one allowance per candidate. */
  lemma ParseSourceKeepsCandidates(page: Page)
    ensures |ParseSource(Some(page))| == |ExtractCandidates(page)|
    ensures forall k :: 0 <= k < |ExtractCandidates(page)| ==>
      Accept(ExtractCandidates(page)[k]) == Some(ParseSource(Some(page))[k])
  {
    var candidates := ExtractCandidates(page);
    assert ParseSource(Some(page)) == Chosen(candidates, Accept);
    ExtractedAreAccepted(page);
    ChosenAll(candidates, Accept);
  }
}

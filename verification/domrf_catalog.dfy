/** The catalog parser of спроси.дом.рф (src/parsers/domrf.py): which links
    are program cards, how a card's identifier falls back to the URL slug,
    when a card yields an allowance, and the length filters applied to the
    texts read from a card. Page loading and DOM traversal are left to the
    caller: a card page is given by the texts the parser would read from it,
    and each regular expression of the law extractors by its first match. */
module DomRfCatalog {

  import opened Wrappers
  import opened Text
  import opened ParserBase

  // ---------------------------------------------------------------------------
  // Program card URLs
  // ---------------------------------------------------------------------------

  /** The catalog host, in punycode. */
  const Domain := "xn--80apaohbc3aw9e.xn--d1aqf.xn--p1ai"

  const Origin := "https://" + Domain

  const CatalogSegment := "/catalog/"

  /** The catalog page every card link hangs under. */
  const CatalogUrl := Origin + CatalogSegment

  /** `_is_program_card_url`: a link to the catalog host, not the catalog
      root itself, with a non-empty path after the last "/catalog/" that is
      not a bare query string. */
  predicate IsProgramCardUrl(url: string) {
    if url == "" || !Contains(url, Domain) then false
    else if EndsWith(TrimEndChar(url, '/'), "/catalog") then false
    else if !Contains(url, CatalogSegment) then false
    else
      var path := TrimChar(LastSplitPiece(url, CatalogSegment, 0), '/');
      path != "" && !StartsWith(path, "?")
  }

  /** `_collect_program_urls`: the distinct card links among the `href`
      attributes of the catalog page's anchors (an anchor without one, or
      whose attribute cannot be read, is skipped). */
  function CollectProgramUrls(hrefs: seq<Option<string>>): (urls: set<string>)
    ensures forall u :: u in urls <==> Some(u) in hrefs && IsProgramCardUrl(u)
  {
    set i | 0 <= i < |hrefs| && hrefs[i].Some? && IsProgramCardUrl(hrefs[i].value) :: hrefs[i].value
  }

  /** `discover_sources`: nothing when the catalog does not load,
      otherwise exactly the card links among the catalog's anchors. */
  function DiscoverSources(loaded: bool, hrefs: seq<Option<string>>): (urls: set<string>)
    ensures !loaded ==> urls == {}
    ensures loaded ==> forall u :: u in urls <==> Some(u) in hrefs && IsProgramCardUrl(u)
    ensures forall u :: u in urls ==> IsProgramCardUrl(u) && Contains(u, Domain)
  {
    if loaded then CollectProgramUrls(hrefs) else {}
  }

  /** Splitting on a separator ends with the text after a given occurrence
      when no other occurrence starts after it or overlaps it. */
  lemma {:induction false} LastPieceAfter(s: string, sep: string, start: nat, i: nat)
    requires |sep| > 0 && start <= i && OccursAt(s, sep, i)
    requires forall j :: i - |sep| < j <= |s| - |sep| && j != i ==> !OccursAt(s, sep, j)
    ensures LastSplitPiece(s, sep, start) == s[i + |sep|..]
    decreases i - start
  {
    var k := FindFrom(s, sep, start);
    assert k != -1 && k <= i;
    if k == i {
      LastPieceAt(s, sep, i);
    } else {
      assert OccursAt(s, sep, k);
      assert i - |sep| < k <= |s| - |sep| && k != i ==> !OccursAt(s, sep, k);
      LastSplitPieceStep(s, sep, start);
      LastPieceAfter(s, sep, k + |sep|, i);
    }
  }

  /** After the last occurrence, the scan finds nothing more. */
  lemma LastPieceAt(s: string, sep: string, i: nat)
    requires |sep| > 0 && OccursAt(s, sep, i)
    requires forall j :: i < j <= |s| - |sep| ==> !OccursAt(s, sep, j)
    ensures LastSplitPiece(s, sep, i) == s[i + |sep|..]
  {
    assert FindFrom(s, sep, i) == i;
    assert FindFrom(s, sep, i + |sep|) == -1;
  }

  /** No character of the host is a slash. */
  lemma DomainHasNoSlash()
    ensures forall j :: 0 <= j < |Domain| ==> Domain[j] != '/'
  {
  }

  /** A slash-free, non-empty text after "/catalog/". */
  predicate IsPathTail(rest: string) {
    rest != "" && forall j :: 0 <= j < |rest| ==> rest[j] != '/'
  }

  /** A link under the catalog names the host and has "/catalog/" right
      after it. */
  lemma UnderCatalogOccurrences(rest: string)
    ensures Contains(CatalogUrl + rest, Domain)
    ensures OccursAt(CatalogUrl + rest, CatalogSegment, |Origin|)
  {
    var url := CatalogUrl + rest;
    assert url[8..8 + |Domain|] == Domain;
    assert OccursAt(url, Domain, 8);
    assert url[|Origin|..|Origin| + 9] == CatalogSegment;
  }

  /** Under the catalog, a link ends in "/catalog" only when its last
      segment is "catalog". */
  lemma EndsInCatalogOnlyTwice(rest: string)
    requires IsPathTail(rest)
    ensures EndsWith(CatalogUrl + rest, "/catalog") <==> rest == "catalog"
  {
    var base := CatalogUrl + rest;
    var m := |base|;
    var ending := base[m - 8..];
    if rest == "catalog" {
      assert ending == "/catalog";
    } else if |rest| >= 8 {
      assert ending[0] == rest[|rest| - 8];
    } else if |rest| != 7 {
      assert ending[0] == CatalogSegment[1 + |rest|];
    } else {
      assert ending[1..] == rest;
    }
  }

  /** Under the catalog, with a last segment other than "catalog", the only
      "/catalog/" that can end the split is the one after the host. */
  lemma SingleCatalogSegment(rest: string, tail: string)
    requires IsPathTail(rest) && rest != "catalog"
    requires tail == "" || tail == "/"
    ensures var url := CatalogUrl + rest + tail;
      forall j :: |Origin| - 9 < j <= |url| - 9 && j != |Origin| ==> !OccursAt(url, CatalogSegment, j)
  {
    var url := CatalogUrl + rest + tail;
    var i := |Origin|;
    DomainHasNoSlash();
    forall j | i - 9 < j <= |url| - 9 && j != i
      ensures !OccursAt(url, CatalogSegment, j)
    {
      NoSegmentAt(rest, tail, j);
    }
  }

  /** One position of `SingleCatalogSegment`. */
  lemma NoSegmentAt(rest: string, tail: string, j: int)
    requires IsPathTail(rest) && rest != "catalog"
    requires tail == "" || tail == "/"
    requires |Origin| - 9 < j <= |CatalogUrl + rest + tail| - 9 && j != |Origin|
    ensures !OccursAt(CatalogUrl + rest + tail, CatalogSegment, j)
  {
    var url := CatalogUrl + rest + tail;
    var i := |Origin|;
    var w := url[j..j + 9];
    if j < i {
      DomainHasNoSlash();
      assert w[0] == url[j] == Domain[j - 8];
    } else if j < i + 8 {
      assert w[0] == url[j] == CatalogSegment[j - i];
    } else if j == i + 8 {
      if |rest| > 7 {
        assert w[8] == url[j + 8] == rest[7];
      } else {
        assert w[1..8] == url[j + 1..j + 8] == rest;
        assert rest != CatalogSegment[1..8];
      }
    } else {
      assert w[0] == url[j] == rest[j - i - 9];
    }
  }

  /** The link `CatalogUrl + rest` (optionally with one trailing slash), for
      a slash-free `rest`, is a card exactly when `rest` neither starts a
      query string nor is the word "catalog" (which makes the link end in
      "/catalog" again). */
  lemma CardUnderCatalog(rest: string, slash: bool)
    requires IsPathTail(rest)
    ensures var url := CatalogUrl + rest + (if slash then "/" else "");
      IsProgramCardUrl(url) <==> rest[0] != '?' && rest != "catalog"
  {
    var tail := if slash then "/" else "";
    var url := CatalogUrl + rest + tail;
    CardLinkFacts(rest, tail);
    EndsInCatalogOnlyTwice(rest);
    if rest == "catalog" {
      CardOfEnding(url);
    } else {
      CardLinkPath(rest, tail);
      CardOfPath(url, rest);
      QueryStart(rest);
    }
  }

  /** A link under the catalog names the host and "/catalog/", and
      trimming its final slash leaves the link without it. */
  lemma CardLinkFacts(rest: string, tail: string)
    requires IsPathTail(rest)
    requires tail == "" || tail == "/"
    ensures var url := CatalogUrl + rest + tail;
      && Contains(url, Domain) && Contains(url, CatalogSegment)
      && TrimEndChar(url, '/') == CatalogUrl + rest
  {
    var url := CatalogUrl + rest + tail;
    var base := CatalogUrl + rest;
    assert url == CatalogUrl + (rest + tail);
    UnderCatalogOccurrences(rest + tail);
    assert base[|base| - 1] == rest[|rest| - 1];
    if tail == "/" {
      assert url[..|url| - 1] == base;
    } else {
      assert url == base;
    }
  }

  /** The path after the last "/catalog/" of a link under the catalog is
      its last segment. */
  lemma CardLinkPath(rest: string, tail: string)
    requires IsPathTail(rest) && rest != "catalog"
    requires tail == "" || tail == "/"
    ensures TrimChar(LastSplitPiece(CatalogUrl + rest + tail, CatalogSegment, 0), '/') == rest
  {
    var url := CatalogUrl + rest + tail;
    assert LastSplitPiece(url, CatalogSegment, 0) == rest + tail by {
      assert url == CatalogUrl + (rest + tail);
      UnderCatalogOccurrences(rest + tail);
      SingleCatalogSegment(rest, tail);
      LastPieceAfter(url, CatalogSegment, 0, |Origin|);
      assert url[|Origin| + 9..] == rest + tail;
    }
    PathAfterCatalog(rest, tail);
  }

  /** A path starts a query string exactly when its first character is
      "?". */
  lemma QueryStart(path: string)
    requires path != ""
    ensures StartsWith(path, "?") <==> path[0] == '?'
  {
    if path[0] == '?' {
      assert path[..1] == "?";
    }
  }

  /** A link ending in "/catalog", up to slashes, is never a card. */
  lemma CardOfEnding(url: string)
    requires EndsWith(TrimEndChar(url, '/'), "/catalog")
    ensures !IsProgramCardUrl(url)
  {
  }

  /** The decision once the host and "/catalog/" are known to occur and the
      link does not end in "/catalog". */
  lemma CardOfPath(url: string, path: string)
    requires url != "" && Contains(url, Domain) && Contains(url, CatalogSegment)
    requires !EndsWith(TrimEndChar(url, '/'), "/catalog")
    requires TrimChar(LastSplitPiece(url, CatalogSegment, 0), '/') == path
    ensures IsProgramCardUrl(url) <==> path != "" && !StartsWith(path, "?")
  {
  }

  /** Stripping slashes from the last piece leaves the path segment. */
  lemma PathAfterCatalog(rest: string, tail: string)
    requires IsPathTail(rest)
    requires tail == "" || tail == "/"
    ensures TrimChar(rest + tail, '/') == rest
  {
    assert TrimStartChar(rest + tail, '/') == rest + tail;
    assert TrimEndChar(rest, '/') == rest;
    if tail == "/" {
      assert (rest + tail)[..|rest|] == rest;
    } else {
      assert rest + tail == rest;
    }
  }

  /** The catalog page itself, with or without its final slash, is not a
      card. */
  lemma CatalogRootIsNotCard()
    ensures !IsProgramCardUrl(CatalogUrl)
    ensures !IsProgramCardUrl(Origin + "/catalog")
  {
    var root := Origin + "/catalog";
    assert CatalogUrl == root + "/";
    assert TrimEndChar(CatalogUrl, '/') == TrimEndChar(root, '/');
    assert TrimEndChar(root, '/') == root;
    assert root[|root| - 8..] == "/catalog";
  }

  // ---------------------------------------------------------------------------
  // Fallback identifier from the URL slug
  // ---------------------------------------------------------------------------

  /** A character of the slug class `[a-z0-9\-_]`. */
  predicate IsSlugChar(c: char) {
    ('a' <= c <= 'z') || ('0' <= c <= '9') || c == '-' || c == '_'
  }

  /** A slug character after upper-casing. */
  predicate IsUpperSlugChar(c: char) {
    ('A' <= c <= 'Z') || ('0' <= c <= '9') || c == '-' || c == '_'
  }

  predicate IsSlug(s: string) {
    |s| > 0 && forall i :: 0 <= i < |s| ==> IsSlugChar(s[i])
  }

  /** `/catalog/([a-z0-9\-_]+)/?$` matches `u` with `slug` as its group:
      `u` ends with "/catalog/", the slug, an optional slash and an
      optional final newline (where `$` also matches). */
  ghost predicate SlugMatch(u: string, slug: string) {
    && IsSlug(slug)
    && (|| EndsWith(u, CatalogSegment + slug)
        || EndsWith(u, CatalogSegment + slug + "/")
        || EndsWith(u, CatalogSegment + slug + "\n")
        || EndsWith(u, CatalogSegment + slug + "/\n"))
  }

  /** What remains once `/?$` has taken an optional final newline and then
      an optional slash. */
  function BeforeEnd(u: string): (t: string)
    ensures u == t || u == t + "/" || u == t + "\n" || u == t + "/\n"
  {
    var a := if |u| > 0 && u[|u| - 1] == '\n' then u[..|u| - 1] else u;
    var t := if |a| > 0 && a[|a| - 1] == '/' then a[..|a| - 1] else a;
    assert a == t || a == t + "/";
    assert u == a || u == a + "\n";
    t
  }

  /** The longest run of slug characters at the end of `t`. */
  function TrailingRun(t: string): (r: string)
    ensures |r| <= |t| && r == t[|t| - |r|..]
    ensures forall i :: 0 <= i < |r| ==> IsSlugChar(r[i])
  {
    if |t| > 0 && IsSlugChar(t[|t| - 1]) then TrailingRun(t[..|t| - 1]) + [t[|t| - 1]] else []
  }

  /** The slug group of the regular expression's match, if it matches. */
  function SlugOf(u: string): (r: Option<string>)
    ensures r.Some? ==> IsSlug(r.value)
  {
    var t := BeforeEnd(u);
    var run := TrailingRun(t);
    if |run| > 0 && EndsWith(t[..|t| - |run|], CatalogSegment) then Some(run) else None
  }

  /** The trailing run of `x + slug` is `slug` when `x` does not end in a
      slug character. */
  lemma {:induction false} TrailingRunOf(x: string, slug: string)
    requires forall i :: 0 <= i < |slug| ==> IsSlugChar(slug[i])
    requires |x| == 0 || !IsSlugChar(x[|x| - 1])
    ensures TrailingRun(x + slug) == slug
    decreases |slug|
  {
    if |slug| == 0 {
      assert x + slug == x;
    } else {
      var init := slug[..|slug| - 1];
      var c := slug[|slug| - 1];
      TrailingRunOf(x, init);
      TrailingRunStep(x + init, c);
      SplitLast(x, slug);
    }
  }

  /** Detaching the last element of the right operand. */
  lemma SplitLast(x: string, y: string)
    requires |y| > 0
    ensures x + y == (x + y[..|y| - 1]) + [y[|y| - 1]]
    ensures y == y[..|y| - 1] + [y[|y| - 1]]
  {
  }

  /** A slug character extends the trailing run. */
  lemma TrailingRunStep(t: string, c: char)
    requires IsSlugChar(c)
    ensures TrailingRun(t + [c]) == TrailingRun(t) + [c]
  {
    var u := t + [c];
    assert u[..|u| - 1] == t;
  }

  /** An ending that holds of `t` holds, extended, of `t + e`. */
  lemma EndsWithExtended(t: string, core: string, e: string)
    requires EndsWith(t, core)
    ensures EndsWith(t + e, core + e)
  {
    assert (t + e)[|t + e| - |core + e|..] == t[|t| - |core|..] + e;
  }

  /** A slug that `SlugOf` reports is one the regular expression
      captures. */
  lemma SlugOfSound(u: string)
    ensures SlugOf(u).Some? ==> SlugMatch(u, SlugOf(u).value)
  {
    if SlugOf(u).Some? {
      var t := BeforeEnd(u);
      var slug := TrailingRun(t);
      var core := CatalogSegment + slug;
      var x := t[..|t| - |slug|];
      assert EndsWith(t, core) by {
        assert t == x + slug;
        assert t[|t| - |core|..] == x[|x| - 9..] + slug;
      }
      if u == t + "/" {
        EndsWithExtended(t, core, "/");
      } else if u == t + "\n" {
        EndsWithExtended(t, core, "\n");
      } else if u == t + "/\n" {
        EndsWithExtended(t, core, "/\n");
      }
    }
  }

  /** What precedes the slug cannot extend its run: it ends in a slash. */
  lemma SlugAfterSegment(p: string, slug: string)
    requires IsSlug(slug)
    ensures SlugOf(p + CatalogSegment + slug) == Some(slug)
  {
    var t := p + CatalogSegment + slug;
    BeforeEndOf(t, "");
    assert t + "" == t;
    assert t == (p + CatalogSegment) + slug;
    TrailingRunOf(p + CatalogSegment, slug);
    assert t[..|t| - |slug|] == p + CatalogSegment;
  }

  /** `/?$` takes exactly the optional slash and newline after a text that
      ends in neither. */
  lemma BeforeEndOf(t: string, e: string)
    requires |t| > 0 && t[|t| - 1] != '/' && t[|t| - 1] != '\n'
    requires e == "" || e == "/" || e == "\n" || e == "/\n"
    ensures BeforeEnd(t + e) == t
  {
    var u := t + e;
    if e == "" {
      assert u == t;
    } else if e == "/" {
      assert u[..|u| - 1] == t;
    } else if e == "\n" {
      assert u[..|u| - 1] == t;
    } else {
      assert u[..|u| - 1] == t + "/";
      assert (t + "/")[..|t|] == t;
    }
  }

  /** Every slug the regular expression captures is the one `SlugOf`
      reports. */
  lemma SlugOfComplete(u: string, slug: string)
    requires SlugMatch(u, slug)
    ensures SlugOf(u) == Some(slug)
  {
    var p, e := MatchParts(u, slug);
    var t := p + CatalogSegment + slug;
    assert t[|t| - 1] == slug[|slug| - 1];
    BeforeEndOf(t, e);
    BeforeEndOf(t, "");
    assert t + "" == t;
    SlugAfterSegment(p, slug);
  }

  /** A match splits `u` into what precedes "/catalog/", the slug, and the
      ending `/?$` consumed. */
  lemma MatchParts(u: string, slug: string) returns (p: string, e: string)
    requires SlugMatch(u, slug)
    ensures u == p + CatalogSegment + slug + e
    ensures e == "" || e == "/" || e == "\n" || e == "/\n"
  {
    var core := CatalogSegment + slug;
    if EndsWith(u, core) {
      e := "";
    } else if EndsWith(u, core + "/") {
      e := "/";
    } else if EndsWith(u, core + "\n") {
      e := "\n";
    } else {
      e := "/\n";
    }
    p := BeforeSuffix(u, CatalogSegment, slug, e);
  }

  /** What precedes a suffix made of three parts. */
  lemma BeforeSuffix(u: string, a: string, b: string, c: string) returns (p: string)
    requires EndsWith(u, a + b + c)
    ensures u == p + a + b + c
  {
    var suffix := a + b + c;
    p := u[..|u| - |suffix|];
    assert u == p + suffix;
    assert p + suffix == p + a + b + c;
  }

  const FallbackPrefix := "CATALOG-"

  /** The longest slug prefix kept in an identifier. */
  const MaxSlugLength := 30

  predicate AllUpperSlug(s: string) {
    forall i :: 0 <= i < |s| ==> IsUpperSlugChar(s[i])
  }

  /** Upper-casing keeps a slug within the upper-case slug class. */
  lemma UpperOfSlug(s: string)
    requires forall i :: 0 <= i < |s| ==> IsSlugChar(s[i])
    ensures AllUpperSlug(Upper(s))
  {
  }

  /** The identifier made from a captured slug. */
  function FallbackIdOfSlug(slug: string): (r: string)
    requires IsSlug(slug)
    ensures r == "" <==> |slug| <= 3
    ensures r != "" ==> StartsWith(r, FallbackPrefix) && 12 <= |r| <= 38
    ensures r != "" ==> AllUpperSlug(r[|FallbackPrefix|..])
  {
    if |slug| > 3 then
      var kept := Upper(slug[..Min(|slug|, MaxSlugLength)]);
      UpperOfSlug(slug[..Min(|slug|, MaxSlugLength)]);
      var r := FallbackPrefix + kept;
      assert r[..|FallbackPrefix|] == FallbackPrefix;
      assert r[|FallbackPrefix|..] == kept;
      r
    else ""
  }

  /** `_generate_fallback_id`: "CATALOG-" and the upper-cased first 30
      characters of the lower-cased URL's slug, when that slug is longer
      than 3 characters; "" otherwise. */
  function GenerateFallbackId(url: string): (r: string)
    ensures r == "" || (StartsWith(r, FallbackPrefix) && 12 <= |r| <= 38)
    ensures r != "" ==> AllUpperSlug(r[|FallbackPrefix|..])
  {
    match SlugOf(Lower(url))
    case None => ""
    case Some(slug) => FallbackIdOfSlug(slug)
  }

  /** The identifier is derived from the captured slug exactly as stated:
      a match with a slug of more than 3 characters gives "CATALOG-" and
      its first 30 characters upper-cased, a shorter slug gives "". */
  lemma FallbackIdOfMatch(url: string, slug: string)
    requires SlugMatch(Lower(url), slug)
    ensures GenerateFallbackId(url) ==
      if |slug| > 3 then FallbackPrefix + Upper(slug[..Min(|slug|, MaxSlugLength)]) else ""
  {
    SlugOfComplete(Lower(url), slug);
  }

  /** A non-empty identifier comes from a match whose slug is longer than 3
      characters. */
  lemma FallbackIdNeedsMatch(url: string)
    ensures GenerateFallbackId(url) != "" ==> exists slug :: SlugMatch(Lower(url), slug) && |slug| > 3
  {
    if GenerateFallbackId(url) != "" {
      SlugOfSound(Lower(url));
    }
  }

  // ---------------------------------------------------------------------------
  // Texts read from a card page
  // ---------------------------------------------------------------------------

  /** `_extract_program_name`: the normalised program title, else the
      normalised first `h1`, whichever first is longer than 5 characters;
      "" when neither is. */
  function ExtractProgramName(title: Option<string>, h1: Option<string>): (r: string)
    ensures r != "" ==> |r| > 5 && IsNormalized(r)
    ensures title.Some? && |Collapse(title.value)| > 5 ==> r == Collapse(title.value)
    ensures r != "" && r != Collapse(title.GetOr("")) ==> h1.Some? && r == Collapse(h1.value)
    ensures r == "" <==>
      (title.None? || |Collapse(title.value)| <= 5) && (h1.None? || |Collapse(h1.value)| <= 5)
  {
    if title.Some? && |Collapse(title.value)| > 5 then Collapse(title.value)
    else if h1.Some? && |Collapse(h1.value)| > 5 then Collapse(h1.value)
    else ""
  }

  /** One regular expression searched over a text: the matched text of its
      first match, if any. */
  type Matcher = string -> Option<string>

  /** Index of the first matcher whose result on `text` is accepted, or
      `|ms|`. */
  function FirstAccepted(ms: seq<Matcher>, text: string, accept: Option<string> -> bool): (k: nat)
    ensures k <= |ms|
    ensures k < |ms| ==> accept(ms[k](text))
    ensures forall j :: 0 <= j < k ==> !accept(ms[j](text))
  {
    if |ms| == 0 then 0
    else if accept(ms[0](text)) then 0
    else 1 + FirstAccepted(ms[1..], text, accept)
  }

  predicate Matched(m: Option<string>) {
    m.Some?
  }

  /** `_extract_law_number`: the normalised text of the first pattern that
      matches, "" when none does. */
  function ExtractLawNumber(patterns: seq<Matcher>, text: string): (r: string)
    ensures IsNormalized(r)
    ensures (forall j :: 0 <= j < |patterns| ==> patterns[j](text).None?) ==> r == ""
    ensures r != "" ==>
      exists k :: && 0 <= k < |patterns| && patterns[k](text).Some?
                  && r == Collapse(patterns[k](text).value)
                  && forall j :: 0 <= j < k ==> patterns[j](text).None?
    ensures (exists j :: 0 <= j < |patterns| && patterns[j](text).Some?) ==>
      exists k :: && 0 <= k < |patterns| && patterns[k](text).Some?
                  && (forall j :: 0 <= j < k ==> patterns[j](text).None?)
                  && r == Collapse(patterns[k](text).value)
  {
    var k := FirstAccepted(patterns, text, Matched);
    assert k == |patterns| ==> forall j :: 0 <= j < |patterns| ==> !Matched(patterns[j](text));
    if k < |patterns| then Collapse(patterns[k](text).value) else ""
  }

  /** A match that qualifies as a full law name: longer than 30 characters
      once normalised. */
  predicate LongMatch(m: Option<string>) {
    m.Some? && |Collapse(m.value)| > 30
  }

  /** A qualifying match as a law name: normalised and cut to 500
      characters. */
  function CutName(m: string): (r: string)
    ensures |r| <= 500
    ensures |Collapse(m)| > 30 ==> |r| > 30
    ensures StartsWith(Collapse(m), r)
  {
    var name := Collapse(m);
    name[..Min(|name|, 500)]
  }

  /** `_extract_full_law_name`: the first pattern whose normalised match is
      longer than 30 characters, cut to 500 characters; shorter matches are
      passed over, and there is no name when no match qualifies. */
  function FullLawName(patterns: seq<Matcher>, text: string): (r: Option<string>)
    ensures r.Some? ==> 30 < |r.value| <= 500
    ensures r.None? <==> forall k :: 0 <= k < |patterns| ==> !LongMatch(patterns[k](text))
    ensures r.Some? ==>
      exists k :: && 0 <= k < |patterns| && LongMatch(patterns[k](text))
                  && (forall j :: 0 <= j < k ==> !LongMatch(patterns[j](text)))
                  && r.value == CutName(patterns[k](text).value)
  {
    var k := FirstAccepted(patterns, text, LongMatch);
    if k < |patterns| then Some(CutName(patterns[k](text).value)) else None
  }

  /** The regulation block of a card: absent, present without its document
      link, or present with the link's text. */
  datatype RegulationSection = NoSection | NoLink | Link(text: string)

  /** The law number and, when known, the full law name. */
  datatype Regulation = Regulation(number: string, name: Option<string>)

  /** `_fallback_regulation_search`: the law number and full name searched
      over the whole page text. */
  function FallbackRegulation(numberPatterns: seq<Matcher>, namePatterns: seq<Matcher>, pageText: string): (r: Regulation)
    ensures r.number == ExtractLawNumber(numberPatterns, pageText)
    ensures r.number == "" ==> r.name == None
    ensures r.number != "" ==> r.name == FullLawName(namePatterns, pageText)
  {
    var number := ExtractLawNumber(numberPatterns, pageText);
    if number == "" then Regulation("", None) else Regulation(number, FullLawName(namePatterns, pageText))
  }

  /** `_extract_regulation_info`: the document link's text when it names a
      law number, kept as the full name only when longer than 20
      characters; otherwise the search over the whole page. */
  function RegulationInfo(numberPatterns: seq<Matcher>, namePatterns: seq<Matcher>,
                          section: RegulationSection, pageText: string): (r: Regulation)
    ensures IsNormalized(r.number)
    ensures r.number == "" ==> r.name == None
    ensures r.name.Some? ==> |r.name.value| > 20
    ensures section.Link? && ExtractLawNumber(numberPatterns, Collapse(section.text)) != "" ==>
      var lawText := Collapse(section.text);
      r == Regulation(ExtractLawNumber(numberPatterns, lawText), if |lawText| > 20 then Some(lawText) else None)
    ensures !(section.Link? && ExtractLawNumber(numberPatterns, Collapse(section.text)) != "") ==>
      r == FallbackRegulation(numberPatterns, namePatterns, pageText)
  {
    if section.Link? then
      var lawText := Collapse(section.text);
      var number := ExtractLawNumber(numberPatterns, lawText);
      if number != "" then Regulation(number, if |lawText| > 20 then Some(lawText) else None)
      else FallbackRegulation(numberPatterns, namePatterns, pageText)
    else FallbackRegulation(numberPatterns, namePatterns, pageText)
  }

  /** A tag kept by `_extract_program_tags`: its normalised text when
      longer than 2 characters, else nothing (""). */
  function TagText(raw: string): (r: string)
    ensures r == "" || (|r| > 2 && IsNormalized(r))
  {
    var t := Collapse(raw);
    if |t| > 2 then t else ""
  }

  /** `_extract_program_tags`: the kept tags, in page order, or the
      participants fallback when none is kept. */
  function ExtractProgramTags(tagTexts: seq<string>, fallback: Option<seq<string>>): (r: Option<seq<string>>)
    ensures Filtered(tagTexts, TagText) != [] ==> r == Some(Filtered(tagTexts, TagText))
    ensures Filtered(tagTexts, TagText) == [] ==> r == fallback
    ensures Filtered(tagTexts, TagText) != [] ==> r.Some? && Picks(tagTexts, NonEmptyOf(TagText), r.value)
  {
    FilteredPicks(tagTexts, TagText);
    var tags := Filtered(tagTexts, TagText);
    if tags != [] then Some(tags) else fallback
  }

  /** Every tag taken from the page is normalised and longer than 2
      characters, and the fallback is consulted exactly when no raw tag
      passes that filter. */
  lemma ProgramTagsFiltered(tagTexts: seq<string>, fallback: Option<seq<string>>)
    ensures var tags := Filtered(tagTexts, TagText);
      forall i :: 0 <= i < |tags| ==> |tags[i]| > 2 && IsNormalized(tags[i])
    ensures (forall i :: 0 <= i < |tagTexts| ==> |Collapse(tagTexts[i])| <= 2) ==>
      ExtractProgramTags(tagTexts, fallback) == fallback
    ensures (exists i :: 0 <= i < |tagTexts| && |Collapse(tagTexts[i])| > 2) ==>
      ExtractProgramTags(tagTexts, fallback) == Some(Filtered(tagTexts, TagText))
      && Filtered(tagTexts, TagText) != []
  {
    var tags := Filtered(tagTexts, TagText);
    FilteredKeeps(tagTexts, TagText, s => s == "" || (|s| > 2 && IsNormalized(s)));
    FilteredEmpty(tagTexts, TagText);
  }

  /** Section-header phrases that announce a list of participants. */
  const ParticipantKeywords: seq<string> := ["кто может", "участники", "получатели", "категории граждан"]

  /** The most list items read after one header. */
  const MaxParticipantItems := 10

  /** An `h2`, `h3` or `p` element: its text and the items of the first
      list that follows it in the document, if any. */
  datatype Header = Header(text: string, nextList: Option<seq<string>>)

  predicate MentionsParticipants(text: string) {
    exists k :: 0 <= k < |ParticipantKeywords| && Contains(Lower(text), ParticipantKeywords[k])
  }

  /** A participant kept from one list item: its normalised text when its
      length lies strictly between 3 and 100. */
  function ParticipantText(raw: string): (r: string)
    ensures r == "" || (3 < |r| < 100 && IsNormalized(r))
  {
    var t := Collapse(raw);
    if 3 < |t| < 100 then t else ""
  }

  /** The participants read after one header. */
  function ParticipantsAfter(h: Header): (r: seq<string>)
    ensures |r| <= MaxParticipantItems
    ensures !(MentionsParticipants(h.text) && h.nextList.Some?) ==> r == []
    ensures MentionsParticipants(h.text) && h.nextList.Some? ==>
      Picks(h.nextList.value[..Min(|h.nextList.value|, MaxParticipantItems)], NonEmptyOf(ParticipantText), r)
  {
    if MentionsParticipants(h.text) && h.nextList.Some? then
      var items := h.nextList.value;
      FilteredPicks(items[..Min(|items|, MaxParticipantItems)], ParticipantText);
      Filtered(items[..Min(|items|, MaxParticipantItems)], ParticipantText)
    else []
  }

  /** Every participant read after one header is normalised and between 4
      and 99 characters long. */
  lemma ParticipantsAfterInRange(h: Header)
    ensures forall k :: 0 <= k < |ParticipantsAfter(h)| ==>
      3 < |ParticipantsAfter(h)[k]| < 100 && IsNormalized(ParticipantsAfter(h)[k])
  {
    if MentionsParticipants(h.text) && h.nextList.Some? {
      var items := h.nextList.value;
      var kept := items[..Min(|items|, MaxParticipantItems)];
      FilteredKeeps(kept, ParticipantText, s => s == "" || (3 < |s| < 100 && IsNormalized(s)));
    }
  }

  /** The position of the first header followed by participants, or the
      number of headers when there is none. */
  function FirstWithParticipants(headers: seq<Header>): (i: nat)
    ensures i <= |headers|
    ensures forall j :: 0 <= j < i ==> ParticipantsAfter(headers[j]) == []
    ensures i < |headers| ==> ParticipantsAfter(headers[i]) != []
  {
    if |headers| == 0 then 0
    else if ParticipantsAfter(headers[0]) != [] then 0
    else
      var i := FirstWithParticipants(headers[1..]);
      assert forall j :: 1 <= j < i + 1 ==> headers[j] == headers[1..][j - 1];
      i + 1
  }

  /** `_extract_participants_fallback`: the participants after the first
      header that mentions them and is followed by a list yielding any;
      `None` when no header does. */
  function ParticipantsFallback(headers: seq<Header>): (r: Option<seq<string>>)
    ensures r.Some? ==> 0 < |r.value| <= MaxParticipantItems
    ensures r.None? <==> forall i :: 0 <= i < |headers| ==> ParticipantsAfter(headers[i]) == []
    ensures r.Some? ==>
      exists i :: && 0 <= i < |headers| && r.value == ParticipantsAfter(headers[i])
                  && forall j :: 0 <= j < i ==> ParticipantsAfter(headers[j]) == []
  {
    var i := FirstWithParticipants(headers);
    if i < |headers| then Some(ParticipantsAfter(headers[i])) else None
  }

  /** Every participant read is normalised and between 4 and 99 characters
      long. */
  lemma ParticipantsInRange(headers: seq<Header>)
    ensures var r := ParticipantsFallback(headers);
      r.Some? ==> forall k :: 0 <= k < |r.value| ==> 3 < |r.value[k]| < 100 && IsNormalized(r.value[k])
  {
    var i := FirstWithParticipants(headers);
    if i < |headers| {
      ParticipantsAfterInRange(headers[i]);
    }
  }

  // ---------------------------------------------------------------------------
  // Program cards
  // ---------------------------------------------------------------------------

  /** `_parse_program_card`: no allowance without a name, nor without a law
      number when the URL gives no fallback identifier; the fallback is used
      only when the page names no law number. */
  function ParseProgramCard(name: string, regulation: Regulation, url: string,
                            tags: Option<seq<string>>): (r: Option<ParsedAllowance>)
    ensures r.None? <==> name == "" || (regulation.number == "" && GenerateFallbackId(url) == "")
    ensures r.Some? ==> r.value.name == name && r.value.npaName == regulation.name && r.value.subjects == tags
    ensures r.Some? && regulation.number != "" ==> r.value.npaNumber == regulation.number
    ensures r.Some? && regulation.number == "" ==> r.value.npaNumber == GenerateFallbackId(url)
    ensures r.Some? ==> && r.value.npaNumber != ""
                        && (regulation.number == "" ==> StartsWith(r.value.npaNumber, FallbackPrefix))
  {
    if name == "" then None
    else
      var number := if regulation.number != "" then regulation.number else GenerateFallbackId(url);
      if number == "" then None
      else Some(ParsedAllowance(name, number, regulation.name, tags))
  }

  /** `parse_source`: at most one allowance per card, none when the page
      does not load. */
  function ParseSource(loaded: bool, card: Option<ParsedAllowance>): (r: seq<ParsedAllowance>)
    ensures |r| <= 1
    ensures r != [] <==> loaded && card.Some?
    ensures r != [] ==> r[0] == card.value
  {
    if loaded && card.Some? then [card.value] else []
  }
}

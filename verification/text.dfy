/** Python string primitives the system relies on, as pure functions over
    `seq<char>`: whitespace splitting and joining (`str.split()`,
    `" ".join(...)`, `str.strip()`), character stripping, substring search,
    simple case mapping and decimal integer formatting. Every text normaliser
    of the system is `" ".join(value.split()).strip()`, defined once here as
    `Collapse`. */
module Text {

  import opened Wrappers

  // ---------------------------------------------------------------------------
  // Whitespace
  // ---------------------------------------------------------------------------

  /** Python's `str.isspace()` for one character: the separators that
      `str.split()` without arguments and `str.strip()` remove. */
  predicate IsSpace(c: char) {
    var n := c as int;
    || n == 0x20
    || (0x09 <= n <= 0x0D)
    || (0x1C <= n <= 0x1F)
    || n == 0x85
    || n == 0xA0
    || n == 0x1680
    || (0x2000 <= n <= 0x200A)
    || n == 0x2028
    || n == 0x2029
    || n == 0x202F
    || n == 0x205F
    || n == 0x3000
  }

  predicate NoSpace(s: string) {
    forall i :: 0 <= i < |s| ==> !IsSpace(s[i])
  }

  predicate AllSpace(s: string) {
    forall i :: 0 <= i < |s| ==> IsSpace(s[i])
  }

  /** A word of `str.split()`: non-empty, without whitespace. */
  predicate IsWord(w: string) {
    |w| > 0 && NoSpace(w)
  }

  predicate AllWords(ws: seq<string>) {
    forall i :: 0 <= i < |ws| ==> IsWord(ws[i])
  }

  /** No whitespace at either end. */
  predicate NoEdgeSpace(s: string) {
    |s| > 0 ==> !IsSpace(s[0]) && !IsSpace(s[|s| - 1])
  }

  /** No two consecutive whitespace characters. */
  predicate NoDoubleSpace(s: string) {
    forall i :: 0 <= i < |s| - 1 && IsSpace(s[i]) ==> !IsSpace(s[i + 1])
  }

  /** The only whitespace character is the plain space. */
  predicate OnlyPlainSpaces(s: string) {
    forall i :: 0 <= i < |s| && IsSpace(s[i]) ==> s[i] == ' '
  }

  /** The shape every text normaliser of the system produces. */
  predicate IsNormalized(s: string) {
    NoEdgeSpace(s) && NoDoubleSpace(s) && OnlyPlainSpaces(s)
  }

  /** Drops the leading whitespace run. */
  function DropSpaces(s: string): (r: string)
    ensures |r| <= |s| && r == s[|s| - |r|..]
    ensures r == [] || !IsSpace(r[0])
    ensures forall i :: 0 <= i < |s| - |r| ==> IsSpace(s[i])
  {
    if |s| > 0 && IsSpace(s[0]) then DropSpaces(s[1..]) else s
  }

  /** Drops the trailing whitespace run. */
  function DropTrailingSpaces(s: string): (r: string)
    ensures |r| <= |s| && r == s[..|r|]
    ensures r == [] || !IsSpace(r[|r| - 1])
    ensures forall i :: |r| <= i < |s| ==> IsSpace(s[i])
  {
    if |s| > 0 && IsSpace(s[|s| - 1]) then DropTrailingSpaces(s[..|s| - 1]) else s
  }

  /** The longest whitespace-free prefix. */
  function WordPrefix(s: string): (w: string)
    ensures |w| <= |s| && w == s[..|w|]
    ensures |s| > 0 && !IsSpace(s[0]) ==> |w| > 0
    ensures NoSpace(w)
    ensures |w| < |s| ==> IsSpace(s[|w|])
  {
    if |s| > 0 && !IsSpace(s[0]) then [s[0]] + WordPrefix(s[1..]) else []
  }

  /** Python's `s.strip()`. */
  function Strip(s: string): (r: string)
    ensures NoEdgeSpace(r)
    ensures r == [] <==> AllSpace(s)
    ensures NoEdgeSpace(s) ==> r == s
  {
    var t := DropSpaces(s);
    var r := DropTrailingSpaces(t);
    assert |t| > 0 ==> |r| > 0 by {
      if |t| > 0 {
        assert !IsSpace(t[0]);
      }
    }
    r
  }

  /** Python's `s.split()` (no separator): the maximal whitespace-free runs,
      in order. */
  function Split(s: string): (ws: seq<string>)
    ensures AllWords(ws)
    ensures ws == [] <==> AllSpace(s)
    decreases |s|
  {
    if |s| == 0 then []
    else if IsSpace(s[0]) then
      assert AllSpace(s[1..]) ==> AllSpace(s) by {
        if AllSpace(s[1..]) {
          forall i | 1 <= i < |s| ensures IsSpace(s[i]) {
            assert s[i] == s[1..][i - 1];
          }
        }
      }
      Split(s[1..])
    else
      var w := WordPrefix(s);
      [w] + Split(s[|w|..])
  }

  /** Python's `sep.join(ws)`. */
  function Join(ws: seq<string>, sep: string): string {
    if |ws| == 0 then ""
    else if |ws| == 1 then ws[0]
    else ws[0] + sep + Join(ws[1..], sep)
  }

  /** `" ".join(s.split()).strip()`: collapse every whitespace run to one
      space and trim. The result is the unique normalised string with the
      same words (see `CollapseUnique`). */
  function Collapse(s: string): (r: string)
    ensures IsNormalized(r)
    ensures Split(r) == Split(s)
    ensures r == [] <==> AllSpace(s)
  {
    var ws := Split(s);
    JoinWordsNormalized(ws);
    SplitJoin(ws);
    Strip(Join(ws, " "))
  }

  /** Characters of `s` that are not whitespace, in order. */
  function NonSpaceChars(s: string): string {
    if |s| == 0 then ""
    else (if IsSpace(s[0]) then "" else [s[0]]) + NonSpaceChars(s[1..])
  }

  /** Concatenation of a sequence of strings. */
  function Concat(ws: seq<string>): string {
    if |ws| == 0 then "" else ws[0] + Concat(ws[1..])
  }

  // ---------------------------------------------------------------------------
  // Lemmas about splitting and joining on whitespace
  // ---------------------------------------------------------------------------

  /** Joining non-empty whitespace-free words with single spaces yields a
      normalised string. */
  lemma {:induction false} JoinWordsNormalized(ws: seq<string>)
    requires AllWords(ws)
    ensures IsNormalized(Join(ws, " "))
    ensures |ws| > 0 ==> |Join(ws, " ")| > 0
  {
    if |ws| == 0 {
    } else if |ws| == 1 {
      assert Join(ws, " ") == ws[0];
    } else {
      var w := ws[0];
      var rest := ws[1..];
      assert AllWords(rest) by {
        forall i | 0 <= i < |rest| ensures IsWord(rest[i]) {
          assert rest[i] == ws[i + 1];
        }
      }
      JoinWordsNormalized(rest);
      var j := Join(rest, " ");
      var r := w + " " + j;
      assert Join(ws, " ") == r;
      assert IsWord(w) by {
        assert w == ws[0];
      }
      assert r[0] == w[0];
      assert r[|r| - 1] == j[|j| - 1];
      forall i | 0 <= i < |r| - 1 ensures IsSpace(r[i]) ==> !IsSpace(r[i + 1]) {
        if i < |w| {
          assert r[i] == w[i];
        } else if i == |w| {
          assert r[i + 1] == j[0];
        } else {
          assert r[i] == j[i - |w| - 1];
          assert r[i + 1] == j[i - |w|];
        }
      }
      forall i | 0 <= i < |r| ensures IsSpace(r[i]) ==> r[i] == ' ' {
        if i < |w| {
          assert r[i] == w[i];
        } else if i > |w| {
          assert r[i] == j[i - |w| - 1];
        }
      }
    }
  }

  /** The whitespace-free prefix of a word followed by whitespace (or by
      nothing) is the word itself. */
  lemma {:induction false} WordPrefixOfWord(w: string, tail: string)
    requires NoSpace(w)
    requires tail == [] || IsSpace(tail[0])
    ensures WordPrefix(w + tail) == w
  {
    if |w| == 0 {
      assert w + tail == tail;
    } else {
      assert (w + tail)[0] == w[0];
      assert (w + tail)[1..] == w[1..] + tail;
      WordPrefixOfWord(w[1..], tail);
      assert w == [w[0]] + w[1..];
    }
  }

  /** A leading whitespace character does not change the split. */
  lemma SplitSkipsSpace(c: char, x: string)
    requires IsSpace(c)
    ensures Split([c] + x) == Split(x)
  {
    assert ([c] + x)[1..] == x;
  }

  /** A word followed by whitespace (or by nothing) is the first word of
      the split. */
  lemma SplitConsWord(w: string, rest: string)
    requires IsWord(w)
    requires rest == [] || IsSpace(rest[0])
    ensures Split(w + rest) == [w] + Split(rest)
  {
    var s := w + rest;
    assert s[0] == w[0];
    WordPrefixOfWord(w, rest);
    assert s[|w|..] == rest;
  }

  lemma AllWordsTail(ws: seq<string>)
    requires AllWords(ws) && |ws| > 0
    ensures AllWords(ws[1..]) && IsWord(ws[0])
  {
    forall i | 0 <= i < |ws[1..]| ensures IsWord(ws[1..][i]) {
      assert ws[1..][i] == ws[i + 1];
    }
  }

  /** Round trip: splitting words joined by single spaces gives them back. */
  lemma {:induction false} SplitJoin(ws: seq<string>)
    requires AllWords(ws)
    ensures Split(Join(ws, " ")) == ws
  {
    if |ws| == 1 {
      var w := ws[0];
      assert IsWord(w);
      assert Join(ws, " ") == w + [];
      SplitConsWord(w, []);
    } else if |ws| > 1 {
      var w := ws[0];
      AllWordsTail(ws);
      var j := Join(ws[1..], " ");
      calc {
        Split(Join(ws, " "));
        { assert Join(ws, " ") == w + " " + j == w + ([' '] + j); }
        Split(w + ([' '] + j));
        { SplitConsWord(w, [' '] + j); }
        [w] + Split([' '] + j);
        { SplitSkipsSpace(' ', j); }
        [w] + Split(j);
        { SplitJoin(ws[1..]); }
        [w] + ws[1..];
      }
      assert [w] + ws[1..] == ws;
    }
  }

  /** What follows the first word and its separating space in a normalised
      string is normalised and starts with a visible character. */
  lemma NormalizedAfterWord(r: string, k: nat)
    requires IsNormalized(r)
    requires k < |r| && IsSpace(r[k])
    ensures k + 1 < |r|
    ensures r[k] == ' '
    ensures IsNormalized(r[k + 1..]) && !IsSpace(r[k + 1])
  {
    var rest := r[k + 1..];
    assert !IsSpace(r[|r| - 1]);
    assert k + 1 < |r|;
    forall i | 0 <= i < |rest| - 1 ensures IsSpace(rest[i]) ==> !IsSpace(rest[i + 1]) {
      assert rest[i] == r[k + 1 + i];
      assert rest[i + 1] == r[k + 2 + i];
    }
    forall i | 0 <= i < |rest| ensures IsSpace(rest[i]) ==> rest[i] == ' ' {
      assert rest[i] == r[k + 1 + i];
    }
    assert rest[|rest| - 1] == r[|r| - 1];
  }

  lemma ConcatSpace(a: string, b: string)
    ensures a + " " + b == a + ([' '] + b)
  {
  }

  /** A normalised string is the space-join of its own words. */
  lemma {:induction false} NormalizedSplitJoin(r: string)
    requires IsNormalized(r)
    ensures Join(Split(r), " ") == r
    decreases |r|
  {
    if r != [] {
      var w := WordPrefix(r);
      assert w == r[..|w|];
      assert |w| > 0 by {
        assert !IsSpace(r[0]);
      }
      if |w| == |r| {
        assert r == w + [];
        SplitConsWord(w, []);
        assert Split(r) == [w];
        assert Join([w], " ") == w;
        assert Join(Split(r), " ") == r;
      } else {
        NormalizedAfterWord(r, |w|);
        var rest := r[|w| + 1..];
        var ws := Split(r);
        assert r == w + ([' '] + rest);
        SplitConsWord(w, [' '] + rest);
        SplitSkipsSpace(' ', rest);
        assert ws == [w] + Split(rest);
        assert Split(rest) != [];
        assert ws[1..] == Split(rest);
        NormalizedSplitJoin(rest);
        assert Join(ws[1..], " ") == rest;
        assert Join(ws, " ") == w + " " + rest;
        ConcatSpace(w, rest);
      }
    } else {
      assert Split(r) == [];
    }
  }

  /** `Collapse(s)` is the only normalised string whose words are those of `s`. */
  lemma CollapseUnique(s: string, r: string)
    requires IsNormalized(r)
    requires Split(r) == Split(s)
    ensures r == Collapse(s)
  {
    NormalizedSplitJoin(r);
    JoinWordsNormalized(Split(s));
  }

  /** Normalising twice is normalising once. */
  lemma CollapseIdempotent(s: string)
    ensures Collapse(Collapse(s)) == Collapse(s)
  {
    CollapseUnique(Collapse(s), Collapse(s));
  }

  lemma {:induction false} NonSpaceCharsAppend(a: string, b: string)
    ensures NonSpaceChars(a + b) == NonSpaceChars(a) + NonSpaceChars(b)
  {
    if |a| > 0 {
      assert (a + b)[1..] == a[1..] + b;
      NonSpaceCharsAppend(a[1..], b);
    } else {
      assert a + b == b;
    }
  }

  lemma {:induction false} NonSpaceCharsOfWord(w: string)
    requires NoSpace(w)
    ensures NonSpaceChars(w) == w
  {
    if |w| > 0 {
      NonSpaceCharsOfWord(w[1..]);
      assert w == [w[0]] + w[1..];
    }
  }

  /** `str.split()` loses nothing but whitespace: its words, concatenated,
      are exactly the visible characters of the input. */
  lemma {:induction false} SplitKeepsContent(s: string)
    ensures Concat(Split(s)) == NonSpaceChars(s)
    decreases |s|
  {
    if |s| > 0 && IsSpace(s[0]) {
      SplitKeepsContent(s[1..]);
    } else if |s| > 0 {
      var w := WordPrefix(s);
      var u := s[|w|..];
      assert s == w + u;
      NonSpaceCharsAppend(w, u);
      NonSpaceCharsOfWord(w);
      SplitKeepsContent(u);
      var ws := Split(s);
      assert ws == [w] + Split(u);
      assert ws[1..] == Split(u);
    }
  }

  /** Collapsing keeps every visible character, in order. */
  lemma CollapseKeepsContent(s: string)
    ensures NonSpaceChars(Collapse(s)) == NonSpaceChars(s)
  {
    SplitKeepsContent(s);
    SplitKeepsContent(Collapse(s));
  }

  // ---------------------------------------------------------------------------
  // Character stripping and substring search
  // ---------------------------------------------------------------------------

  /** Python's `s.rstrip(c)` for one character `c`. */
  function TrimEndChar(s: string, c: char): (r: string)
    ensures |r| <= |s| && r == s[..|r|]
    ensures r == [] || r[|r| - 1] != c
    ensures forall i :: |r| <= i < |s| ==> s[i] == c
  {
    if |s| > 0 && s[|s| - 1] == c then TrimEndChar(s[..|s| - 1], c) else s
  }

  /** Python's `s.lstrip(c)` for one character `c`. */
  function TrimStartChar(s: string, c: char): (r: string)
    ensures |r| <= |s| && r == s[|s| - |r|..]
    ensures r == [] || r[0] != c
    ensures forall i :: 0 <= i < |s| - |r| ==> s[i] == c
  {
    if |s| > 0 && s[0] == c then TrimStartChar(s[1..], c) else s
  }

  /** Python's `s.strip(c)` for one character `c`. */
  function TrimChar(s: string, c: char): string {
    TrimEndChar(TrimStartChar(s, c), c)
  }

  predicate StartsWith(s: string, prefix: string) {
    |prefix| <= |s| && s[..|prefix|] == prefix
  }

  predicate EndsWith(s: string, suffix: string) {
    |suffix| <= |s| && s[|s| - |suffix|..] == suffix
  }

  predicate OccursAt(s: string, sub: string, i: int) {
    0 <= i && i + |sub| <= |s| && s[i..i + |sub|] == sub
  }

  /** Python's `sub in s`. */
  predicate Contains(s: string, sub: string) {
    exists i :: 0 <= i <= |s| - |sub| && OccursAt(s, sub, i)
  }

  /** Python's `s.find(sub, start)`: the first occurrence at or after
      `start`, or -1. */
  function FindFrom(s: string, sub: string, start: nat): (r: int)
    requires |sub| > 0
    requires start <= |s|
    ensures r == -1 || (start <= r && OccursAt(s, sub, r))
    ensures r == -1 ==> forall i :: start <= i <= |s| - |sub| ==> !OccursAt(s, sub, i)
    ensures r != -1 ==> forall i :: start <= i < r ==> !OccursAt(s, sub, i)
    decreases |s| - start
  {
    if start + |sub| > |s| then -1
    else if s[start..start + |sub|] == sub then start
    else FindFrom(s, sub, start + 1)
  }

  /** The last piece of Python's `s.split(sep)`: the text after the final
      separator of the left-to-right, non-overlapping scan (all of `s` when
      `sep` does not occur). */
  function LastSplitPiece(s: string, sep: string, start: nat): (r: string)
    requires |sep| > 0
    requires start <= |s|
    ensures |r| <= |s| - start && r == s[|s| - |r|..]
    decreases |s| - start
  {
    var k := FindFrom(s, sep, start);
    if k == -1 then s[start..] else LastSplitPiece(s, sep, k + |sep|)
  }

  /** One step of the scan: after a separator found at or after `start`,
      the last piece is the last piece of what follows it. */
  lemma LastSplitPieceStep(s: string, sep: string, start: nat)
    requires |sep| > 0
    requires start <= |s|
    requires FindFrom(s, sep, start) != -1
    ensures LastSplitPiece(s, sep, start) == LastSplitPiece(s, sep, FindFrom(s, sep, start) + |sep|)
  {
  }

  /** The last piece holds no separator: the scan found none after it. */
  lemma {:induction false} LastSplitPieceHasNoSeparator(s: string, sep: string, start: nat)
    requires |sep| > 0
    requires start <= |s|
    ensures !Contains(LastSplitPiece(s, sep, start), sep)
    decreases |s| - start
  {
    var k := FindFrom(s, sep, start);
    if k == -1 {
      forall i | 0 <= i <= |s[start..]| - |sep| ensures !OccursAt(s[start..], sep, i) {
        assert s[start..][i..i + |sep|] == s[start + i..start + i + |sep|];
        assert !OccursAt(s, sep, start + i);
      }
    } else {
      LastSplitPieceHasNoSeparator(s, sep, k + |sep|);
    }
  }

  // ---------------------------------------------------------------------------
  // Case mapping
  // ---------------------------------------------------------------------------

  /** Lower case for the Latin and Cyrillic letters the system's texts use
      (ASCII A-Z, U+0400..U+042F); every other character is kept. */
  function LowerChar(c: char): char {
    var n := c as int;
    if 'A' as int <= n <= 'Z' as int then (n + 32) as char
    else if 0x410 <= n <= 0x42F then (n + 0x20) as char
    else if 0x400 <= n <= 0x40F then (n + 0x50) as char
    else c
  }

  /** ASCII upper case. */
  function UpperChar(c: char): char {
    if 'a' <= c <= 'z' then (c as int - 32) as char else c
  }

  function Lower(s: string): (r: string)
    ensures |r| == |s|
    ensures forall i :: 0 <= i < |s| ==> r[i] == LowerChar(s[i])
  {
    if |s| == 0 then "" else [LowerChar(s[0])] + Lower(s[1..])
  }

  function Upper(s: string): (r: string)
    ensures |r| == |s|
    ensures forall i :: 0 <= i < |s| ==> r[i] == UpperChar(s[i])
  {
    if |s| == 0 then "" else [UpperChar(s[0])] + Upper(s[1..])
  }

  // ---------------------------------------------------------------------------
  // Decimal integers (Python's `str(n)` and `int(s)`)
  // ---------------------------------------------------------------------------

  predicate IsDigit(c: char) {
    '0' <= c <= '9'
  }

  function DigitChar(d: nat): (c: char)
    requires d < 10
    ensures IsDigit(c)
  {
    ('0' as int + d) as char
  }

  function DigitValue(c: char): (d: nat)
    requires IsDigit(c)
    ensures d < 10
  {
    c as int - '0' as int
  }

  /** Python's `str(n)` for a natural number. */
  function NatToString(n: nat): (s: string)
    ensures |s| > 0
    ensures forall i :: 0 <= i < |s| ==> IsDigit(s[i])
    ensures |s| > 1 ==> s[0] != '0'
    decreases n
  {
    if n < 10 then [DigitChar(n)] else NatToString(n / 10) + [DigitChar(n % 10)]
  }

  /** Python's `str(n)`. */
  function IntToString(n: int): string {
    if n < 0 then "-" + NatToString(-n) else NatToString(n)
  }

  /** The value of a string of decimal digits. */
  function DigitsValue(s: string): nat
    requires forall i :: 0 <= i < |s| ==> IsDigit(s[i])
  {
    if |s| == 0 then 0 else DigitsValue(s[..|s| - 1]) * 10 + DigitValue(s[|s| - 1])
  }

  /** Python's `int(s)` for an optionally signed run of ASCII digits,
      surrounded by optional whitespace; `None` where Python raises
      `ValueError`. */
  function ParseInt(s: string): Option<int> {
    var t := Strip(s);
    if |t| > 0 && (t[0] == '-' || t[0] == '+') then
      var digits := t[1..];
      if |digits| > 0 && forall i :: 0 <= i < |digits| ==> IsDigit(digits[i]) then
        var v: int := if t[0] == '-' then -(DigitsValue(digits) as int) else DigitsValue(digits);
        Some(v)
      else None
    else if |t| > 0 && forall i :: 0 <= i < |t| ==> IsDigit(t[i]) then
      Some(DigitsValue(t))
    else None
  }

  /** Round trip of decimal formatting for naturals. */
  lemma {:induction false} DigitsValueOfNatToString(n: nat)
    ensures DigitsValue(NatToString(n)) == n
    decreases n
  {
    if n >= 10 {
      var s := NatToString(n);
      DigitsValueOfNatToString(n / 10);
      assert s[..|s| - 1] == NatToString(n / 10);
      assert DigitValue(s[|s| - 1]) == n % 10;
    } else {
      assert DigitValue(DigitChar(n)) == n;
    }
  }

  /** Parsing an unsigned run of digits. */
  lemma ParseIntOfDigits(s: string)
    requires |s| > 0 && forall i :: 0 <= i < |s| ==> IsDigit(s[i])
    ensures ParseInt(s) == Some(DigitsValue(s))
  {
    assert !IsSpace(s[0]) && !IsSpace(s[|s| - 1]);
    assert Strip(s) == s;
    assert s[0] != '-' && s[0] != '+';
  }

  /** Parsing a negative run of digits. */
  lemma ParseIntOfNegativeDigits(s: string)
    requires |s| > 0 && forall i :: 0 <= i < |s| ==> IsDigit(s[i])
    ensures ParseInt("-" + s) == Some(-(DigitsValue(s) as int))
  {
    var m := "-" + s;
    assert m[0] == '-' && m[|m| - 1] == s[|s| - 1];
    assert !IsSpace(m[0]) && !IsSpace(m[|m| - 1]);
    assert Strip(m) == m;
    assert m[1..] == s;
  }

  /** Round trip of Python's `int(str(n))`. */
  lemma ParseIntOfIntToString(n: int)
    ensures ParseInt(IntToString(n)) == Some(n)
  {
    var m: nat := if n < 0 then -n else n;
    var d := NatToString(m);
    DigitsValueOfNatToString(m);
    var v := DigitsValue(d);
    assert v == m;
    if n < 0 {
      ParseIntOfNegativeDigits(d);
      assert IntToString(n) == "-" + d;
      assert ParseInt("-" + d) == Some(-(v as int));
    } else {
      ParseIntOfDigits(d);
      assert IntToString(n) == d;
      assert ParseInt(d) == Some(v);
    }
  }

  // ---------------------------------------------------------------------------
  // Cleaning lists of strings
  // ---------------------------------------------------------------------------

  /** The items that `clean` leaves non-empty, cleaned, in order: the
      shape of `[clean(x) for x in xs if clean(x)]`. */
  function Filtered(xs: seq<string>, clean: string -> string): (r: seq<string>)
    ensures |r| <= |xs|
    ensures forall i :: 0 <= i < |r| ==> r[i] != ""
  {
    if |xs| == 0 then []
    else (if clean(xs[0]) != "" then [clean(xs[0])] else []) + Filtered(xs[1..], clean)
  }

  /** Nothing is kept exactly when every item cleans to "". */
  lemma {:induction false} FilteredEmpty(xs: seq<string>, clean: string -> string)
    ensures Filtered(xs, clean) == [] <==> forall i :: 0 <= i < |xs| ==> clean(xs[i]) == ""
  {
    if |xs| > 0 {
      FilteredEmpty(xs[1..], clean);
      assert forall i :: 1 <= i < |xs| ==> xs[i] == xs[1..][i - 1];
    }
  }

  /** A property of every cleaned item holds of every kept item. */
  lemma {:induction false} FilteredKeeps(xs: seq<string>, clean: string -> string, p: string -> bool)
    requires forall i :: 0 <= i < |xs| ==> p(clean(xs[i]))
    ensures forall i :: 0 <= i < |Filtered(xs, clean)| ==> p(Filtered(xs, clean)[i])
  {
    if |xs| > 0 {
      assert forall i :: 0 <= i < |xs[1..]| ==> xs[1..][i] == xs[i + 1];
      FilteredKeeps(xs[1..], clean, p);
    }
  }

  /** A visible character occurs in a text exactly when it occurs among
      the text's visible characters. */
  lemma {:induction false} NonSpaceCharsMember(s: string, c: char)
    requires !IsSpace(c)
    ensures c in s <==> c in NonSpaceChars(s)
  {
    if |s| > 0 {
      NonSpaceCharsMember(s[1..], c);
      assert s == [s[0]] + s[1..];
    }
  }

  function Min(a: int, b: int): int {
    if a < b then a else b
  }

  // ---------------------------------------------------------------------------
  // Choosing from a sequence
  // ---------------------------------------------------------------------------

  /** The values `f` yields, in order: the shape of
      `[g(x) for x in xs if p(x)]`. */
  function Chosen<A, B>(xs: seq<A>, f: A -> Option<B>): (r: seq<B>)
    ensures |r| <= |xs|
  {
    if |xs| == 0 then []
    else (if f(xs[0]).Some? then [f(xs[0]).value] else []) + Chosen(xs[1..], f)
  }

  /** `r` lists what `f` yields at the strictly increasing positions `idx`
      of `xs`, and every position where `f` yields a value is among them:
      `r` is `f`'s values over `xs`, in order, none left out. */
  ghost predicate OrderedPick<A, B>(xs: seq<A>, f: A -> Option<B>, r: seq<B>, idx: seq<int>) {
    && |idx| == |r|
    && (forall k :: 0 <= k < |idx| ==> 0 <= idx[k] < |xs| && f(xs[idx[k]]) == Some(r[k]))
    && (forall k, l :: 0 <= k < l < |idx| ==> idx[k] < idx[l])
    && (forall i :: 0 <= i < |xs| && f(xs[i]).Some? ==> i in idx)
  }

  /** `r` is `f`'s values over `xs`, in order, none left out. */
  ghost predicate Picks<A, B>(xs: seq<A>, f: A -> Option<B>, r: seq<B>) {
    exists idx :: OrderedPick(xs, f, r, idx)
  }

  /** Every position moved one place on. */
  function Shift(t: seq<int>): (u: seq<int>)
    ensures |u| == |t| && forall k :: 0 <= k < |t| ==> u[k] == t[k] + 1
  {
    seq(|t|, k requires 0 <= k < |t| => t[k] + 1)
  }

  /** The positions where `f` yields a value, in increasing order. */
  function ChosenIndices<A, B>(xs: seq<A>, f: A -> Option<B>): (idx: seq<int>)
    ensures |idx| == |Chosen(xs, f)|
    ensures forall k :: 0 <= k < |idx| ==> 0 <= idx[k] < |xs|
  {
    if |xs| == 0 then []
    else (if f(xs[0]).Some? then [0] else []) + Shift(ChosenIndices(xs[1..], f))
  }

  /** `Chosen` picks exactly `f`'s values, in order, at the positions
      `ChosenIndices` lists. */
  lemma {:induction false} ChosenPicks<A, B>(xs: seq<A>, f: A -> Option<B>)
    ensures OrderedPick(xs, f, Chosen(xs, f), ChosenIndices(xs, f))
  {
    if |xs| > 0 {
      ChosenPicks(xs[1..], f);
      ChosenPicksValues(xs, f);
      ChosenPicksIncreasing(xs, f);
      ChosenPicksComplete(xs, f);
    }
  }

  /** The head's pick followed by the tail's, shifted one place on. */
  lemma ChosenStep<A, B>(xs: seq<A>, f: A -> Option<B>)
    requires |xs| > 0
    ensures ChosenIndices(xs, f) == (if f(xs[0]).Some? then [0] else []) + Shift(ChosenIndices(xs[1..], f))
    ensures Chosen(xs, f) == (if f(xs[0]).Some? then [f(xs[0]).value] else []) + Chosen(xs[1..], f)
  {
  }

  lemma ChosenPicksValues<A, B>(xs: seq<A>, f: A -> Option<B>)
    requires |xs| > 0
    requires OrderedPick(xs[1..], f, Chosen(xs[1..], f), ChosenIndices(xs[1..], f))
    ensures var idx := ChosenIndices(xs, f);
      forall k :: 0 <= k < |idx| ==> f(xs[idx[k]]) == Some(Chosen(xs, f)[k])
  {
    ChosenStep(xs, f);
    var some := f(xs[0]).Some?;
    ShiftValues(xs, f, if some then [0] else [], if some then [f(xs[0]).value] else [],
                ChosenIndices(xs[1..], f), Chosen(xs[1..], f));
  }

  /** The tail's picks, shifted one place on, are picks of the whole list;
      so is the head's, when it has one. */
  lemma ShiftValues<A, B>(xs: seq<A>, f: A -> Option<B>, hi: seq<int>, hr: seq<B>, ti: seq<int>, tr: seq<B>)
    requires |xs| > 0
    requires (hi == [] && hr == []) || (hi == [0] && f(xs[0]).Some? && hr == [f(xs[0]).value])
    requires |ti| == |tr|
    requires forall k :: 0 <= k < |ti| ==> 0 <= ti[k] < |xs[1..]| && f(xs[1..][ti[k]]) == Some(tr[k])
    ensures var idx := hi + Shift(ti);
      forall k :: 0 <= k < |idx| ==> 0 <= idx[k] < |xs| && f(xs[idx[k]]) == Some((hr + tr)[k])
  {
    var sh := Shift(ti);
    var idx := hi + sh;
    var r := hr + tr;
    var h := |hi|;
    forall k | 0 <= k < |idx| ensures 0 <= idx[k] < |xs| && f(xs[idx[k]]) == Some(r[k]) {
      if k >= h {
        var j := k - h;
        assert idx[k] == ti[j] + 1 && r[k] == tr[j];
        assert xs[ti[j] + 1] == xs[1..][ti[j]];
      }
    }
  }

  lemma ChosenPicksIncreasing<A, B>(xs: seq<A>, f: A -> Option<B>)
    requires |xs| > 0
    requires OrderedPick(xs[1..], f, Chosen(xs[1..], f), ChosenIndices(xs[1..], f))
    ensures var idx := ChosenIndices(xs, f);
      forall k, l :: 0 <= k < l < |idx| ==> idx[k] < idx[l]
  {
    ChosenStep(xs, f);
    var head: seq<int> := if f(xs[0]).Some? then [0] else [];
    ShiftIncreasing(head, ChosenIndices(xs[1..], f));
  }

  /** Shifting a strictly increasing list of naturals one place on and
      putting an optional 0 in front keeps it strictly increasing. */
  lemma ShiftIncreasing(head: seq<int>, t: seq<int>)
    requires head == [] || head == [0]
    requires forall k :: 0 <= k < |t| ==> t[k] >= 0
    requires forall k, l :: 0 <= k < l < |t| ==> t[k] < t[l]
    ensures var u := head + Shift(t);
      forall k, l :: 0 <= k < l < |u| ==> u[k] < u[l]
  {
    var sh := Shift(t);
    var u := head + sh;
    var h := |head|;
    forall k, l | 0 <= k < l < |u| ensures u[k] < u[l] {
      assert u[l] == sh[l - h] == t[l - h] + 1;
      if k >= h {
        assert u[k] == sh[k - h] == t[k - h] + 1;
      }
    }
  }

  lemma ChosenPicksComplete<A, B>(xs: seq<A>, f: A -> Option<B>)
    requires |xs| > 0
    requires OrderedPick(xs[1..], f, Chosen(xs[1..], f), ChosenIndices(xs[1..], f))
    ensures forall i :: 0 <= i < |xs| && f(xs[i]).Some? ==> i in ChosenIndices(xs, f)
  {
    ChosenStep(xs, f);
    ShiftComplete(xs, f, if f(xs[0]).Some? then [0] else [], ChosenIndices(xs[1..], f));
  }

  /** Every position of the tail where `f` yields a value is among `ti`:
      then every such position of the whole list is among the shifted
      `ti`, or is the head's. */
  lemma ShiftComplete<A, B>(xs: seq<A>, f: A -> Option<B>, hi: seq<int>, ti: seq<int>)
    requires |xs| > 0
    requires (hi == [] && f(xs[0]).None?) || hi == [0]
    requires forall i :: 0 <= i < |xs[1..]| && f(xs[1..][i]).Some? ==> i in ti
    ensures forall i :: 0 <= i < |xs| && f(xs[i]).Some? ==> i in hi + Shift(ti)
  {
    var idx := hi + Shift(ti);
    var h := |hi|;
    forall i | 0 <= i < |xs| && f(xs[i]).Some? ensures i in idx {
      if i == 0 {
        assert idx[0] == 0;
      } else {
        assert xs[1..][i - 1] == xs[i];
        var j :| 0 <= j < |ti| && ti[j] == i - 1;
        assert idx[h + j] == i;
      }
    }
  }

  /** The pick is unique: two lists that are both `f`'s values over `xs`,
      in order, are the same list. */
  lemma PicksUnique<A, B>(xs: seq<A>, f: A -> Option<B>, r: seq<B>, idx: seq<int>, s: seq<B>, jdx: seq<int>)
    requires OrderedPick(xs, f, r, idx) && OrderedPick(xs, f, s, jdx)
    ensures r == s
  {
    assert idx == jdx by {
      IncreasingSameMembers(idx, jdx);
    }
  }

  /** Two strictly increasing lists with the same members are equal. */
  lemma {:induction false} IncreasingSameMembers(a: seq<int>, b: seq<int>)
    requires forall k, l :: 0 <= k < l < |a| ==> a[k] < a[l]
    requires forall k, l :: 0 <= k < l < |b| ==> b[k] < b[l]
    requires forall x :: x in a <==> x in b
    ensures a == b
    decreases |a| + |b|
  {
    if |a| > 0 && |b| > 0 {
      assert a[0] in b && b[0] in a;
      var i :| 0 <= i < |b| && b[i] == a[0];
      var j :| 0 <= j < |a| && a[j] == b[0];
      HeadLeast(b, i);
      HeadLeast(a, j);
      forall x ensures x in a[1..] <==> x in b[1..] {
        if x in a[1..] {
          var k :| 1 <= k < |a| && a[k] == x;
          assert x in b && x != b[0];
          var m :| 0 <= m < |b| && b[m] == x;
          assert b[1..][m - 1] == x;
        }
        if x in b[1..] {
          var k :| 1 <= k < |b| && b[k] == x;
          assert x in a && x != a[0];
          var m :| 0 <= m < |a| && a[m] == x;
          assert a[1..][m - 1] == x;
        }
      }
      IncreasingSameMembers(a[1..], b[1..]);
    } else if |a| > 0 {
      HeadIn(a);
      assert false;
    } else if |b| > 0 {
      HeadIn(b);
      assert false;
    }
  }

  /** The head of a strictly increasing list is its least member. */
  lemma HeadLeast(s: seq<int>, k: int)
    requires forall m, n :: 0 <= m < n < |s| ==> s[m] < s[n]
    requires 0 <= k < |s|
    ensures s[0] <= s[k]
  {
  }

  lemma HeadIn<T>(s: seq<T>)
    requires |s| > 0
    ensures s[0] in s
  {
  }

  /** The choice `Filtered` makes: keep `clean(x)` when it is non-empty. */
  function NonEmptyOf(clean: string -> string): string -> Option<string> {
    x => if clean(x) != "" then Some(clean(x)) else None
  }

  /** `Filtered` is `Chosen` with the non-empty choice. */
  lemma {:induction false} FilteredIsChosen(xs: seq<string>, clean: string -> string)
    ensures Filtered(xs, clean) == Chosen(xs, NonEmptyOf(clean))
  {
    if |xs| > 0 {
      FilteredIsChosen(xs[1..], clean);
    }
  }

  /** `Filtered` keeps the non-empty cleaned items, in order, none left
      out. */
  lemma FilteredPicks(xs: seq<string>, clean: string -> string)
    ensures Picks(xs, NonEmptyOf(clean), Filtered(xs, clean))
  {
    FilteredIsChosen(xs, clean);
    ChosenPicks(xs, NonEmptyOf(clean));
  }
}

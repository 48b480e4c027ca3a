/** The tag scanner and the parameter parsers of
    `src/mkdocs_sqlalchemy_plugin/utils.py`.

    The scanner is a hand-written recogniser of the one regular expression
    the plugin searches with, `\{%\s*sqlalchemy(?:\s+([^%]+))?\s*%\}`, in
    its greedy form (the default of `match_tag_regex` and the pattern of
    `on_page_markdown`) and in the lazy form `[^%]+?` of `TAG_PATTERN`.
    Because neither `[^%]` nor `\s` can consume a `%`, a match at position
    `i` is decided by the first `%` after the keyword: it must be followed
    by `}`, and the text in between (the "body") must be empty or start
    with whitespace. The parameter parsers follow `re.finditer` for the two
    parameter patterns the same way. */
module Utils {
  import opened Wrappers
  import opened Text
  import opened Seqs
  import opened Finditer

  /** `FIELD_NAMES`: the only field names a `fields` parameter may select. */
  const FieldNames: seq<string> :=
    ["column", "type", "nullable", "default", "primary_key", "unique", "foreign_key"]

  const Keyword: string := "sqlalchemy"

  // ---------------------------------------------------------------------
  // Tag scanning
  // ---------------------------------------------------------------------

  /** Which of the two spellings of the tag pattern is searched with: the
      greedy `([^%]+)` or the lazy `([^%]+?)`. */
  datatype TagPattern = GreedyParams | LazyParams

  /** One `re.Match` of the tag pattern; its groups are group 1. */
  type TagMatch = Hit<Option<string>>

  /** The first position at or after `from` that is not whitespace. */
  function SkipSpaces(s: string, from: nat): (j: nat)
    requires from <= |s|
    ensures from <= j <= |s|
    ensures AllSpace(s[from..j])
    ensures j == |s| || !IsSpace(s[j])
    decreases |s| - from
  {
    if from < |s| && IsSpace(s[from]) then
      var j := SkipSpaces(s, from + 1);
      assert s[from..j] == [s[from]] + s[from + 1..j];
      j
    else from
  }

  /** The text between the keyword and the closing `%}` can be matched by
      `(?:\s+[^%]+)?\s*`. */
  predicate ValidBody(body: string) {
    '%' !in body && (body == [] || IsSpace(body[0]))
  }

  /** Group 1 for a tag whose body is `body`. The optional group needs a
      whitespace character and at least one more character, so it is absent
      for a body of length at most one. Otherwise `\s+` takes the leading
      whitespace and the parameter group the rest, down to its last
      character when the body is all whitespace; the lazy form leaves
      trailing whitespace to the final `\s*`. */
  function Capture(body: string, p: TagPattern): (r: Option<string>)
    requires ValidBody(body)
    ensures r.None? <==> |body| <= 1
    ensures r.Some? ==> |r.value| >= 1 && '%' !in r.value
    ensures r.Some? && |r.value| > 1 ==> !IsSpace(r.value[0])
    ensures r.Some? && |r.value| > 1 && p == LazyParams ==> !IsSpace(r.value[|r.value| - 1])
  {
    if |body| <= 1 then None
    else
      var rest := TrimLeft(body);
      NoPercentInSlice(body, |body| - |rest|, |body|);
      if rest == [] then
        NoPercentInSlice(body, |body| - 1, |body|);
        Some(body[|body| - 1..])
      else if p == GreedyParams then
        Some(rest)
      else
        var g := TrimRight(rest);
        NoPercentInSlice(rest, 0, |g|);
        Some(g)
  }

  lemma NoPercentInSlice(t: string, a: nat, b: nat)
    requires a <= b <= |t| && '%' !in t
    ensures '%' !in t[a..b]
  {
    assert forall k :: 0 <= k < b - a ==> t[a..b][k] == t[a + k];
  }

  /** The text `t` is one whole tag: `{%`, optional whitespace, the keyword,
      a valid body and `%}`. This is the language of the tag pattern,
      stated without reference to how it is searched. */
  ghost predicate IsTag(t: string) {
    && |t| >= 14
    && t[0] == '{' && t[1] == '%'
    && t[|t| - 2] == '%' && t[|t| - 1] == '}'
    && exists n :: TagSplit(t, n)
  }

  /** The keyword of tag `t` starts at `n`: whitespace before it, a valid
      body after it up to the closing `%}`. */
  predicate TagSplit(t: string, n: int) {
    && 2 <= n <= |t| - 12
    && AllSpace(t[2..n])
    && t[n..n + 10] == Keyword
    && ValidBody(t[n + 10..|t| - 2])
  }

  /** The pattern tried at position `i` of `s` (what `re.match(pattern, s[i:])`
      would return). `MatchAtIsTag` shows that a match is always a whole
      tag. */
  function MatchAt(s: string, i: nat, p: TagPattern): (r: Option<TagMatch>)
    ensures r.Some? ==> r.value.start == i && i + 14 <= r.value.end <= |s|
    ensures r.Some? ==> r.value.groups.Some? ==> '%' !in r.value.groups.value
  {
    if i + 2 > |s| || s[i] != '{' || s[i + 1] != '%' then None
    else
      var j := SkipSpaces(s, i + 2);
      if j + 10 > |s| || s[j..j + 10] != Keyword then None
      else
        match IndexOf(s, j + 10, '%')
        case None => None
        case Some(e) =>
          if e + 1 < |s| && s[e + 1] == '}' && (e == j + 10 || IsSpace(s[j + 10])) then
            BodyShape(s, j, e);
            Some(Hit(i, e + 2, Capture(s[j + 10..e], p)))
          else None
  }

  /** What follows the keyword up to the first `%` is a valid body when it
      is empty or starts with whitespace. */
  lemma BodyShape(s: string, j: nat, e: nat)
    requires j + 10 <= e <= |s|
    requires forall k :: j + 10 <= k < e ==> s[k] != '%'
    requires e == j + 10 || IsSpace(s[j + 10])
    ensures ValidBody(s[j + 10..e])
  {
    var body := s[j + 10..e];
    assert forall k :: 0 <= k < |body| ==> body[k] == s[j + 10 + k];
  }

  /** Soundness of the pattern: what `MatchAt` matches is a whole tag. */
  lemma MatchAtIsTag(s: string, i: nat, p: TagPattern)
    requires MatchAt(s, i, p).Some?
    ensures IsTag(s[i..MatchAt(s, i, p).value.end])
  {
    assert i + 2 <= |s| && s[i] == '{' && s[i + 1] == '%';
    var j := SkipSpaces(s, i + 2);
    assert j + 10 <= |s| && s[j..j + 10] == Keyword;
    var e := IndexOf(s, j + 10, '%').value;
    assert e + 1 < |s| && s[e + 1] == '}' && (e == j + 10 || IsSpace(s[j + 10]));
    assert MatchAt(s, i, p).value.end == e + 2;
    TagShape(s, i, j, e);
  }

  /** The pieces found by `MatchAt` assemble into a whole tag. */
  lemma TagShape(s: string, i: nat, j: nat, e: nat)
    requires i + 2 <= j && j + 10 <= e && e + 2 <= |s|
    requires s[i] == '{' && s[i + 1] == '%' && AllSpace(s[i + 2..j]) && s[j..j + 10] == Keyword
    requires forall k :: j + 10 <= k < e ==> s[k] != '%'
    requires e == j + 10 || IsSpace(s[j + 10])
    requires s[e] == '%' && s[e + 1] == '}'
    ensures IsTag(s[i..e + 2])
  {
    var t := s[i..e + 2];
    BodyShape(s, j, e);
    SliceOfSlice(s, i, e + 2, 2, j - i);
    SliceOfSlice(s, i, e + 2, j - i, j - i + 10);
    SliceOfSlice(s, i, e + 2, j - i + 10, e - i);
    assert TagSplit(t, j - i);
  }

  lemma {:induction false} SkipSpacesLands(s: string, from: nat, j: nat)
    requires from <= j < |s| && AllSpace(s[from..j]) && !IsSpace(s[j])
    ensures SkipSpaces(s, from) == j
    decreases j - from
  {
    if from < j {
      assert IsSpace(s[from..j][0]);
      assert s[from + 1..j] == s[from..j][1..];
      SkipSpacesLands(s, from + 1, j);
    }
  }

  lemma {:induction false} IndexOfLands(s: string, from: nat, e: nat, c: char)
    requires from <= e < |s| && c !in s[from..e] && s[e] == c
    ensures IndexOf(s, from, c) == Some(e)
    decreases e - from
  {
    if from < e {
      assert s[from] == s[from..e][0];
      assert s[from + 1..e] == s[from..e][1..];
      IndexOfLands(s, from + 1, e, c);
    }
  }

  /** Where a tag sits, a `%` occurs only as its second and its
      second-to-last character, and its third character is whitespace or
      the start of the keyword. */
  lemma TagCharacters(t: string)
    requires IsTag(t)
    ensures forall k :: 1 < k < |t| && t[k] == '%' ==> k == |t| - 2
    ensures t[2] == 's' || IsSpace(t[2])
  {
    var n :| TagSplit(t, n);
    forall k | 1 < k < |t| && k != |t| - 2 ensures t[k] != '%' {
      if k < n {
        assert t[k] == t[2..n][k - 2];
      } else if k < n + 10 {
        assert t[k] == Keyword[k - n];
      } else if k < |t| - 2 {
        assert t[k] == t[n + 10..|t| - 2][k - n - 10];
      }
    }
    if n == 2 {
      assert t[n..n + 10][0] == t[2];
    } else {
      assert t[2..n][0] == t[2];
    }
  }

  /** Conversely, wherever a whole tag starts, the pattern matches there and
      ends exactly where the tag ends. */
  lemma MatchAtComplete(s: string, i: nat, e: nat, p: TagPattern)
    requires i <= e <= |s| && IsTag(s[i..e])
    ensures MatchAt(s, i, p).Some? && MatchAt(s, i, p).value.end == e
  {
    var j := TagParts(s, i, e);
    KeywordStart(s, j);
    SkipSpacesLands(s, i + 2, j);
    BodyStart(s, j + 10, e - 2);
    IndexOfLands(s, j + 10, e - 2, '%');
    MatchAtIntro(s, i, j, e - 2, p);
  }

  /** A tag at `[i, e)` has the pieces `MatchAt` looks for, with its
      keyword at `j`. */
  lemma TagParts(s: string, i: nat, e: nat) returns (j: nat)
    requires i <= e <= |s| && IsTag(s[i..e])
    ensures i + 2 <= j && j + 10 <= e - 2
    ensures s[i] == '{' && s[i + 1] == '%' && AllSpace(s[i + 2..j]) && s[j..j + 10] == Keyword
    ensures ValidBody(s[j + 10..e - 2]) && s[e - 2] == '%' && s[e - 1] == '}'
  {
    var n :| TagSplit(s[i..e], n);
    j := i + n;
    TagDelimiters(s, i, e);
    TagKeyword(s, i, e, n);
    TagBody(s, i, e, n);
  }

  lemma TagDelimiters(s: string, i: nat, e: nat)
    requires i <= e <= |s| && IsTag(s[i..e])
    ensures s[i] == '{' && s[i + 1] == '%' && s[e - 2] == '%' && s[e - 1] == '}'
  {
    var t := s[i..e];
    assert s[i] == t[0] && s[i + 1] == t[1] && s[e - 2] == t[|t| - 2] && s[e - 1] == t[|t| - 1];
  }

  lemma TagKeyword(s: string, i: nat, e: nat, n: nat)
    requires i <= e <= |s| && TagSplit(s[i..e], n)
    ensures AllSpace(s[i + 2..i + n]) && s[i + n..i + n + 10] == Keyword
  {
    SliceOfSlice(s, i, e, 2, n);
    SliceOfSlice(s, i, e, n, n + 10);
  }

  lemma TagBody(s: string, i: nat, e: nat, n: nat)
    requires i <= e <= |s| && TagSplit(s[i..e], n)
    ensures ValidBody(s[i + n + 10..e - 2])
  {
    SliceOfSlice(s, i, e, n + 10, e - i - 2);
  }

  lemma KeywordStart(s: string, j: nat)
    requires j + 10 <= |s| && s[j..j + 10] == Keyword
    ensures !IsSpace(s[j])
  {
    assert s[j] == s[j..j + 10][0];
  }

  lemma BodyStart(s: string, b: nat, e: nat)
    requires b <= e <= |s| && ValidBody(s[b..e])
    ensures e == b || IsSpace(s[b])
  {
    if b < e {
      assert s[b] == s[b..e][0];
    }
  }

  /** The conditions under which `MatchAt` finds a tag ending at `e + 2`. */
  lemma MatchAtIntro(s: string, i: nat, j: nat, e: nat, p: TagPattern)
    requires i + 2 <= j && j + 10 <= e && e + 2 <= |s|
    requires s[i] == '{' && s[i + 1] == '%' && SkipSpaces(s, i + 2) == j && s[j..j + 10] == Keyword
    requires IndexOf(s, j + 10, '%') == Some(e) && s[e + 1] == '}'
    requires e == j + 10 || IsSpace(s[j + 10])
    ensures MatchAt(s, i, p).Some? && MatchAt(s, i, p).value.end == e + 2
  {
  }

  /** No tag starts strictly inside another: the only `%` inside a tag other
      than its second character is the one of the closing `%}`, and the `}`
      after it can neither be whitespace nor begin the keyword. */
  lemma NoTagInside(s: string, i: nat, q: nat, p: TagPattern)
    requires MatchAt(s, i, p).Some?
    requires i < q < MatchAt(s, i, p).value.end
    ensures MatchAt(s, q, p).None?
  {
    var e := MatchAt(s, i, p).value.end;
    MatchAtIsTag(s, i, p);
    TagPercents(s, i, e);
    NoMatchBeforeClose(s, i, e, q, p);
  }

  /** Inside a span whose only `%` after its second character is the one
      of the closing `%}`, no match starts. */
  lemma NoMatchBeforeClose(s: string, i: nat, e: nat, q: nat, p: TagPattern)
    requires i < q < e <= |s| && i + 4 <= e
    requires s[e - 2] == '%' && s[e - 1] == '}'
    requires forall k :: i + 1 < k < e - 2 ==> s[k] != '%'
    ensures MatchAt(s, q, p).None?
  {
    if q >= e - 2 {
      NoOpeningAt(s, q, p);
    } else if q + 1 < e - 2 {
      NoOpeningAt(s, q, p);
    } else {
      NoKeywordAt(s, q, p);
    }
  }

  /** `TagCharacters` for a tag found in `s` at `[i, e)`. */
  lemma TagPercents(s: string, i: nat, e: nat)
    requires i <= e <= |s| && IsTag(s[i..e])
    ensures s[e - 2] == '%' && s[e - 1] == '}'
    ensures forall k :: i + 1 < k < e - 2 ==> s[k] != '%'
  {
    var t := s[i..e];
    TagCharacters(t);
    forall k | i + 1 < k < e - 2 ensures s[k] != '%' {
      assert s[k] == t[k - i];
    }
  }

  /** No match where `{%` does not start. */
  lemma NoOpeningAt(s: string, q: nat, p: TagPattern)
    requires q < |s| && (s[q] != '{' || (q + 1 < |s| && s[q + 1] != '%'))
    ensures MatchAt(s, q, p).None?
  {
    if q + 2 <= |s| {
      assert s[q..q + 2][0] == s[q] && s[q..q + 2][1] == s[q + 1];
    }
  }

  /** No match where `{%` is directly followed by `}`. */
  lemma NoKeywordAt(s: string, q: nat, p: TagPattern)
    requires q + 2 < |s| && s[q + 2] == '}'
    ensures MatchAt(s, q, p).None?
  {
    assert SkipSpaces(s, q + 2) == q + 2;
    if q + 12 <= |s| {
      assert s[q + 2..q + 12][0] == s[q + 2];
    }
  }

  /** The tag pattern as a matcher over `s`: anchored, and no tag starts
      inside another. */
  function TagMatcher(s: string, p: TagPattern): (at: nat -> Option<TagMatch>)
    ensures Anchored(at, |s|) && Unnested(at)
    ensures forall i: nat :: at(i) == MatchAt(s, i, p)
  {
    forall i: nat, q: nat | MatchAt(s, i, p).Some? && i < q < MatchAt(s, i, p).value.end
      ensures MatchAt(s, q, p).None?
    {
      NoTagInside(s, i, q, p);
    }
    (i: nat) => MatchAt(s, i, p)
  }

  /** `re.finditer(pattern, s)` from position `from`. */
  function Scan(s: string, from: nat, p: TagPattern): (r: seq<TagMatch>)
    ensures forall k :: 0 <= k < |r| ==> from <= r[k].start && MatchAt(s, r[k].start, p) == Some(r[k])
    ensures forall j, k :: 0 <= j < k < |r| ==> r[j].end <= r[k].start
  {
    FindAll(TagMatcher(s, p), |s|, from)
  }

  /** `match_tag_regex(markdown, pattern)` */
  function MatchTagRegex(markdown: string, p: TagPattern): seq<TagMatch> {
    Scan(markdown, 0, p)
  }

  /** The scan misses no tag: every position at or after `from` where the
      pattern matches is the start of one of the scan's matches. Together
      with the contract of `Scan`, the matches are exactly the tags of the
      text, left to right and non-overlapping. */
  lemma ScanFindsEveryTag(s: string, from: nat, p: TagPattern, q: nat) returns (k: nat)
    requires from <= q && MatchAt(s, q, p).Some?
    ensures k < |Scan(s, from, p)| && Scan(s, from, p)[k].start == q
  {
    k := FindAllComplete(TagMatcher(s, p), |s|, from, q);
  }

  /** The greedy and the lazy spelling of the pattern find the same tags;
      the lazy capture is the greedy one without trailing whitespace (except
      for a one-character capture, which both keep). */
  lemma PatternsAgree(s: string, from: nat)
    ensures |Scan(s, from, GreedyParams)| == |Scan(s, from, LazyParams)|
    ensures forall k :: 0 <= k < |Scan(s, from, GreedyParams)| ==>
      var g := Scan(s, from, GreedyParams)[k];
      var l := Scan(s, from, LazyParams)[k];
      && g.start == l.start && g.end == l.end
      && g.groups.None? == l.groups.None?
      && (g.groups.Some? && |g.groups.value| > 1 ==> l.groups.value == TrimRight(g.groups.value))
  {
    forall i: nat ensures MatchAtPatterns(s, i) {
      MatchAtAgree(s, i);
    }
    FindAllAgree(TagMatcher(s, GreedyParams), TagMatcher(s, LazyParams), |s|, from);
  }

  /** At one position, the two spellings of the pattern agree as
      `PatternsAgree` states. */
  ghost predicate MatchAtPatterns(s: string, i: nat) {
    var g := MatchAt(s, i, GreedyParams);
    var l := MatchAt(s, i, LazyParams);
    && g.Some? == l.Some?
    && (g.Some? ==>
      && g.value.end == l.value.end
      && g.value.groups.None? == l.value.groups.None?
      && (g.value.groups.Some? && |g.value.groups.value| > 1 ==> l.value.groups.value == TrimRight(g.value.groups.value)))
  }

  lemma MatchAtAgree(s: string, i: nat)
    ensures MatchAtPatterns(s, i)
  {
  }

  // ---------------------------------------------------------------------
  // Comma lists
  // ---------------------------------------------------------------------

  /** The stripped pieces of `s.split(",")`: none holds a comma or
      surrounding whitespace. */
  function StrippedPieces(s: string): (r: seq<string>)
    ensures |r| == Count(s, ',') + 1
    ensures forall i :: 0 <= i < |r| ==> r[i] == Strip(Split(s, ',')[i])
    ensures forall i :: 0 <= i < |r| ==> ',' !in r[i] && Stripped(r[i])
  {
    var ps := Split(s, ',');
    var r := seq(|ps|, i requires 0 <= i < |ps| => Strip(ps[i]));
    forall i | 0 <= i < |r| ensures ',' !in r[i] {
      assert ',' !in ps[i];
    }
    r
  }

  /** The pieces that name a field, in their original order. */
  function KeepFieldNames(pieces: seq<string>): (r: seq<string>)
    ensures ValidFields(r)
    ensures forall i :: 0 <= i < |pieces| && pieces[i] in FieldNames ==> pieces[i] in r
    ensures forall x :: multiset(r)[x] == if x in FieldNames then multiset(pieces)[x] else 0
    ensures Subsequence(r, pieces)
  {
    FilterCounts(pieces, IsFieldName);
    FilterSubsequence(pieces, IsFieldName);
    Filter(pieces, IsFieldName)
  }

  predicate IsFieldName(piece: string) {
    piece in FieldNames
  }

  /** Every entry names a field; the invariant of a `fields` setting. */
  predicate ValidFields(fields: seq<string>) {
    forall i :: 0 <= i < |fields| ==> fields[i] in FieldNames
  }

  /** `parse_fields(fields_str)`: `None` for a missing or empty string,
      otherwise the stripped comma-separated pieces that are field names,
      in input order. */
  function ParseFields(fieldsStr: Option<string>): (r: Option<seq<string>>)
    ensures r.None? <==> fieldsStr.None? || fieldsStr.value == ""
    ensures r.Some? ==> ValidFields(r.value)
    ensures r.Some? ==> Subsequence(r.value, StrippedPieces(fieldsStr.value))
    ensures r.Some? ==> forall piece :: piece in StrippedPieces(fieldsStr.value) && piece in FieldNames ==> piece in r.value
    ensures r.Some? ==> forall piece :: multiset(r.value)[piece] == (if piece in FieldNames then multiset(StrippedPieces(fieldsStr.value))[piece] else 0)
  {
    if fieldsStr.None? || fieldsStr.value == "" then None
    else Some(KeepFieldNames(StrippedPieces(fieldsStr.value)))
  }

  /** `parse_table_list(tables_str)`: `None` for a missing or empty string,
      otherwise one stripped entry per comma-separated piece, unfiltered
      (empty entries included). */
  function ParseTableList(tablesStr: Option<string>): (r: Option<seq<string>>)
    ensures r.None? <==> tablesStr.None? || tablesStr.value == ""
    ensures r.Some? ==> |r.value| == Count(tablesStr.value, ',') + 1
    ensures r.Some? ==> ListSafe(r.value)
    ensures r.Some? ==> forall i :: 0 <= i < |r.value| ==> r.value[i] == Strip(Split(tablesStr.value, ',')[i])
  {
    if tablesStr.None? || tablesStr.value == "" then None
    else Some(StrippedPieces(tablesStr.value))
  }

  /** Names a comma list carries unchanged: none holds a comma or
      surrounding whitespace. */
  predicate ListSafe(names: seq<string>) {
    forall i :: 0 <= i < |names| ==> ',' !in names[i] && Stripped(names[i])
  }

  /** Writing a list of table names as a comma list and parsing it gives the
      list back, when no name contains a comma or surrounding whitespace. */
  lemma ParseTableListRoundTrip(names: seq<string>)
    requires |names| >= 1 && Join(names, ",") != "" && ListSafe(names)
    ensures ParseTableList(Some(Join(names, ","))) == Some(names)
  {
    StrippedPiecesJoin(names);
  }

  lemma StrippedPiecesJoin(names: seq<string>)
    requires |names| >= 1 && ListSafe(names)
    ensures StrippedPieces(Join(names, ",")) == names
  {
    var s := Join(names, [',']);
    assert forall i :: 0 <= i < |names| ==> ',' !in names[i];
    SplitJoin(names, ',');
    StripEach(StrippedPieces(s), Split(s, ','));
  }

  /** Stripping pieces that have no surrounding whitespace leaves them
      alone. */
  lemma StripEach(r: seq<string>, ps: seq<string>)
    requires |r| == |ps| && forall i :: 0 <= i < |ps| ==> r[i] == Strip(ps[i]) && Stripped(ps[i])
    ensures r == ps
  {
    forall i | 0 <= i < |ps| ensures r[i] == ps[i] {
      StripUnchanged(ps[i]);
    }
  }

  /** Writing a non-empty list of field names as a comma list and parsing it
      with `parse_fields` gives the list back. */
  lemma ParseFieldsRoundTrip(fields: seq<string>)
    requires |fields| >= 1
    requires ValidFields(fields)
    ensures ParseFields(Some(Join(fields, ","))) == Some(fields)
  {
    FieldNamesClean(fields);
    JoinNonEmpty(fields, ",");
    StrippedPiecesJoin(fields);
    KeepAllFieldNames(fields);
    ParseFieldsOf(Join(fields, ","), fields);
  }

  lemma FieldNamesClean(fields: seq<string>)
    requires |fields| >= 1 && ValidFields(fields)
    ensures ListSafe(fields) && |fields[0]| >= 1
  {
    forall i | 0 <= i < |fields| ensures ',' !in fields[i] && Stripped(fields[i]) {
      FieldNameIsWord(fields[i]);
    }
    FieldNameIsWord(fields[0]);
  }

  lemma ParseFieldsOf(s: string, fields: seq<string>)
    requires s != "" && StrippedPieces(s) == fields && KeepFieldNames(fields) == fields
    ensures ParseFields(Some(s)) == Some(fields)
  {
  }

  lemma ParseFieldsKeeps(s: string, kept: seq<string>)
    requires s != "" && KeepFieldNames(StrippedPieces(s)) == kept
    ensures ParseFields(Some(s)) == Some(kept)
  {
  }

  /** A `fields` parameter holding the comma-join of valid field names
      parses back to those names. */
  lemma ListedFieldsParse(params: Params, fields: seq<string>)
    requires |fields| >= 1 && ValidFields(fields)
    requires "fields" in params && params["fields"] == Str(Join(fields, ","))
    ensures ParseFields(ParamText(params, "fields")) == Some(fields)
  {
    ListedFieldsText(params, fields);
    ParseFieldsRoundTrip(fields);
  }

  lemma ListedFieldsText(params: Params, fields: seq<string>)
    requires |fields| >= 1 && ValidFields(fields)
    requires "fields" in params && params["fields"] == Str(Join(fields, ","))
    ensures ParamText(params, "fields") == Some(Join(fields, ","))
  {
    FieldNameIsWord(fields[0]);
    JoinNonEmpty(fields, ",");
    ParamTextOf(params, "fields", Join(fields, ","));
  }

  /** A non-empty string parameter is given, with its own text. */
  lemma ParamTextOf(params: Params, key: string, text: string)
    requires text != "" && key in params && params[key] == Str(text)
    ensures ParamText(params, key) == Some(text)
  {
  }

  /** Every field name is a non-empty run of word characters. */
  lemma FieldNameIsWord(f: string)
    requires f in FieldNames
    ensures |f| >= 1 && AllWordChars(f)
    ensures ',' !in f && Stripped(f)
  {
  }

  lemma {:induction false} JoinNonEmpty(parts: seq<string>, sep: string)
    requires |parts| >= 1 && |parts[0]| >= 1
    ensures Join(parts, sep) != ""
  {
    if |parts| > 1 {
      assert Join(parts, sep) == parts[0] + sep + Join(parts[1..], sep);
    }
  }

  lemma KeepAllFieldNames(pieces: seq<string>)
    requires ValidFields(pieces)
    ensures KeepFieldNames(pieces) == pieces
  {
    FilterAll(pieces, IsFieldName);
  }

  // ---------------------------------------------------------------------
  // Tag parameters
  // ---------------------------------------------------------------------

  /** A parsed parameter value: the text of `key="..."`, or the flag of
      `key=true` / `key=false`. */
  datatype ParamValue = Str(text: string) | Bool(flag: bool)

  type Params = map<string, ParamValue>

  /** `str(v)`: the text itself, or `True` / `False`. */
  function PyStr(v: ParamValue): string {
    match v
    case Str(text) => text
    case Bool(flag) => if flag then "True" else "False"
  }

  /** `bool(v)`: a string is true when it is not empty. */
  predicate Truthy(v: ParamValue) {
    match v
    case Str(text) => text != ""
    case Bool(flag) => flag
  }

  /** `params.get(key)` as the comma-list parsers see it: absent for a
      missing or false value (they return `None` for those), otherwise its
      `str`. */
  function ParamText(params: Params, key: string): (r: Option<string>)
    ensures r.Some? <==> key in params && Truthy(params[key])
    ensures r.Some? ==> r.value != ""
  {
    if key in params && Truthy(params[key]) then Some(PyStr(params[key])) else None
  }

  /** `bool(params.get(key, default))` */
  function Flag(params: Params, key: string, default: bool): bool {
    if key in params then Truthy(params[key]) else default
  }

  /** What a parameter pattern captures: the key and the value. */
  datatype Param = Param(key: string, value: ParamValue)

  /** One match of a parameter pattern. */
  type ParamMatch = Hit<Param>

  /** The two parameter patterns, `(\w+)="([^"]*)"` and `(\w+)=(true|false)`. */
  datatype ParamKind = StringParam | BoolParam

  /** The end of the run of word characters starting at `from`. */
  function WordEnd(s: string, from: nat): (q: nat)
    requires from <= |s|
    ensures from <= q <= |s|
    ensures AllWordChars(s[from..q])
    ensures q == |s| || !IsWordChar(s[q])
    decreases |s| - from
  {
    if from < |s| && IsWordChar(s[from]) then
      var q := WordEnd(s, from + 1);
      assert s[from..q] == [s[from]] + s[from + 1..q];
      q
    else from
  }

  /** The greedy `\w+` ends at the first non-word character. */
  lemma {:induction false} WordEndLands(s: string, from: nat, q: nat)
    requires from <= q <= |s| && AllWordChars(s[from..q]) && (q == |s| || !IsWordChar(s[q]))
    ensures WordEnd(s, from) == q
    decreases q - from
  {
    if from < q {
      assert IsWordChar(s[from..q][0]);
      assert s[from + 1..q] == s[from..q][1..];
      WordEndLands(s, from + 1, q);
    }
  }

  /** The run of word characters from `from` stops at or before any
      non-word character `b`. */
  lemma {:induction false} WordEndBefore(s: string, from: nat, b: nat)
    requires from <= b < |s| && !IsWordChar(s[b])
    ensures WordEnd(s, from) <= b
    decreases b - from
  {
    if from < b && IsWordChar(s[from]) {
      WordEndBefore(s, from + 1, b);
    }
  }

  /** The text of a match of the given kind: a non-empty word key, `=`, and
      either a quoted string free of `"` or a lowercase boolean literal. */
  ghost predicate IsParamText(t: string, key: string, value: ParamValue, kind: ParamKind) {
    && |key| >= 1 && AllWordChars(key)
    && (match kind
        case StringParam => value.Str? && '"' !in value.text && t == key + "=\"" + value.text + "\""
        case BoolParam => value.Bool? && t == key + "=" + (if value.flag then "true" else "false"))
  }

  /** The parameter pattern of the given kind tried at position `i`. The
      greedy `\w+` takes the whole run of word characters, since a shorter
      run would be followed by a word character instead of `=`. */
  function ParamAt(s: string, i: nat, kind: ParamKind): (r: Option<ParamMatch>)
    ensures r.Some? ==> r.value.start == i < r.value.end <= |s|
    ensures r.Some? ==> IsParamText(s[i..r.value.end], r.value.groups.key, r.value.groups.value, kind)
    ensures r.Some? ==> WellFormedParam(r.value.groups)
  {
    if i >= |s| || !IsWordChar(s[i]) then None
    else
      var q := WordEnd(s, i);
      if q >= |s| || s[q] != '=' then None
      else
        match kind
        case StringParam => StringValueAt(s, i, q)
        case BoolParam => BoolValueAt(s, i, q)
  }

  /** The converse of `ParamAt`'s contract: wherever the text of a match of
      the given kind starts at `i`, the pattern tried at `i` matches exactly
      that text, with its key and value. */
  lemma ParamAtComplete(s: string, i: nat, e: nat, key: string, value: ParamValue, kind: ParamKind)
    requires i <= e <= |s| && IsParamText(s[i..e], key, value, kind)
    ensures ParamAt(s, i, kind) == Some(Hit(i, e, Param(key, value)))
  {
    var q := i + |key|;
    ParamTextParts(s, i, e, key, value, kind);
    WordEndLands(s, i, q);
    if kind == StringParam {
      StringValueComplete(s, i, q, e);
    } else {
      BoolValueComplete(s, i, q, e, value.flag);
    }
  }

  lemma StringValueComplete(s: string, i: nat, q: nat, e: nat)
    requires i < q && q + 2 < e <= |s| && AllWordChars(s[i..q]) && s[q] == '='
    requires s[q + 1] == '"' && '"' !in s[q + 2..e - 1] && s[e - 1] == '"'
    ensures StringValueAt(s, i, q) == Some(Hit(i, e, Param(s[i..q], Str(s[q + 2..e - 1]))))
  {
    IndexOfLands(s, q + 2, e - 1, '"');
  }

  lemma BoolValueComplete(s: string, i: nat, q: nat, e: nat, flag: bool)
    requires i < q && q + 1 < e <= |s| && AllWordChars(s[i..q]) && s[q] == '='
    requires s[q + 1..e] == (if flag then "true" else "false")
    ensures BoolValueAt(s, i, q) == Some(Hit(i, e, Param(s[i..q], Bool(flag))))
  {
    var lit := s[q + 1..e];
    assert s[q + 1..][..|lit|] == lit;
    assert s[q + 1] == lit[0];
  }

  /** Where the key, the `=` and the value of a parameter's text sit. */
  lemma ParamTextParts(s: string, i: nat, e: nat, key: string, value: ParamValue, kind: ParamKind)
    requires i <= e <= |s| && IsParamText(s[i..e], key, value, kind)
    ensures var q := i + |key|; i < q < e && s[i..q] == key && AllWordChars(s[i..q]) && s[q] == '='
    ensures var q := i + |key|; kind == StringParam ==>
      q + 2 < e && s[q + 1] == '"' && s[q + 2..e - 1] == value.text && '"' !in s[q + 2..e - 1] && s[e - 1] == '"'
    ensures var q := i + |key|; kind == BoolParam ==>
      s[q + 1..e] == (if value.flag then "true" else "false")
  {
    var t := s[i..e];
    var q := i + |key|;
    SliceOfSlice(s, i, e, 0, |key|);
    assert t[..|key|] == key;
    assert s[q] == t[|key|];
    if kind == StringParam {
      SliceOfSlice(s, i, e, |key| + 2, |t| - 1);
      assert t[|key| + 2..|t| - 1] == value.text;
      assert s[q + 1] == t[|key| + 1] && s[e - 1] == t[|t| - 1];
    } else {
      SliceOfSlice(s, i, e, |key| + 1, |t|);
      assert t[|key| + 1..] == (if value.flag then "true" else "false");
    }
  }

  /** Every parameter written in `s` is found by the scan of its kind from
      the start, or lies inside a match found before it: when a found match
      starts where the parameter does, it is that parameter. */
  lemma FindParamsCovers(s: string, i: nat, e: nat, key: string, value: ParamValue, kind: ParamKind) returns (k: nat)
    requires i <= e <= |s| && IsParamText(s[i..e], key, value, kind)
    ensures var ms := FindParams(s, 0, kind);
      k < |ms| && ms[k].start <= i < ms[k].end && (ms[k].start == i ==> ms[k] == Hit(i, e, Param(key, value)))
  {
    ParamAtComplete(s, i, e, key, value, kind);
    k := FindAllCovers(ParamMatcher(s, kind), |s|, 0, i);
  }

  /** `"..."` after the key `s[i..q]` and its `=`. */
  function StringValueAt(s: string, i: nat, q: nat): (r: Option<ParamMatch>)
    requires i < q < |s| && AllWordChars(s[i..q]) && s[q] == '='
    ensures r.Some? ==> r.value.start == i < r.value.end <= |s|
    ensures r.Some? ==> IsParamText(s[i..r.value.end], r.value.groups.key, r.value.groups.value, StringParam)
    ensures r.Some? ==> WellFormedParam(r.value.groups)
  {
    if q + 1 < |s| && s[q + 1] == '"' then
      match IndexOf(s, q + 2, '"')
      case None => None
      case Some(e) =>
        var key := s[i..q];
        var text := s[q + 2..e];
        assert '"' !in text by {
          assert forall c :: 0 <= c < |text| ==> text[c] == s[q + 2 + c];
        }
        assert s[i..e + 1] == key + "=\"" + text + "\"";
        Some(Hit(i, e + 1, Param(key, Str(text))))
    else None
  }

  /** `true` or `false` after the key `s[i..q]` and its `=`. */
  function BoolValueAt(s: string, i: nat, q: nat): (r: Option<ParamMatch>)
    requires i < q < |s| && AllWordChars(s[i..q]) && s[q] == '='
    ensures r.Some? ==> r.value.start == i < r.value.end <= |s|
    ensures r.Some? ==> IsParamText(s[i..r.value.end], r.value.groups.key, r.value.groups.value, BoolParam)
    ensures r.Some? ==> WellFormedParam(r.value.groups)
  {
    var key := s[i..q];
    if StartsWith(s[q + 1..], "true") then
      assert s[i..q + 5] == key + "=" + "true";
      Some(Hit(i, q + 5, Param(key, Bool(true))))
    else if StartsWith(s[q + 1..], "false") then
      assert s[i..q + 6] == key + "=" + "false";
      Some(Hit(i, q + 6, Param(key, Bool(false))))
    else None
  }

  /** What every parameter match carries: a word key and, for a string,
      text free of `"`. */
  predicate WellFormedParam(m: Param) {
    |m.key| >= 1 && AllWordChars(m.key) && (m.value.Str? ==> '"' !in m.value.text)
  }

  /** The parameter pattern of the given kind, as a matcher over `s`. */
  function ParamMatcher(s: string, kind: ParamKind): (at: nat -> Option<ParamMatch>)
    ensures Anchored(at, |s|)
    ensures forall i: nat :: at(i) == ParamAt(s, i, kind)
  {
    (i: nat) => ParamAt(s, i, kind)
  }

  /** `re.finditer` for a parameter pattern, from position `from`. */
  function FindParams(s: string, from: nat, kind: ParamKind): (r: seq<ParamMatch>)
    ensures forall k :: 0 <= k < |r| ==> from <= r[k].start && ParamAt(s, r[k].start, kind) == Some(r[k])
    ensures forall j, k :: 0 <= j < k < |r| ==> r[j].end <= r[k].start
  {
    FindAll(ParamMatcher(s, kind), |s|, from)
  }

  /** What the matches captured, in order. */
  function Groups(ms: seq<ParamMatch>): (ps: seq<Param>)
    ensures |ps| == |ms| && forall k :: 0 <= k < |ms| ==> ps[k] == ms[k].groups
  {
    seq(|ms|, k requires 0 <= k < |ms| => ms[k].groups)
  }

  /** The parameter at index `k` is the last one in `ps` with its key. */
  predicate LastWithKey(ps: seq<Param>, k: nat)
    requires k < |ps|
  {
    forall j :: k < j < |ps| ==> ps[j].key != ps[k].key
  }

  function KeysOf(ps: seq<Param>): set<string> {
    set k | 0 <= k < |ps| :: ps[k].key
  }

  function ValuesOf(ps: seq<Param>): set<ParamValue> {
    set k | 0 <= k < |ps| :: ps[k].value
  }

  /** `params[key] = value` for each parameter in turn: the keys are those
      of `acc` and of the parameters, an assigned key holds the value of its
      last assignment, and any other key keeps its value from `acc`. */
  function Store(ps: seq<Param>, acc: Params): (r: Params)
    ensures r.Keys == acc.Keys + KeysOf(ps)
    ensures r.Values <= acc.Values + ValuesOf(ps)
    ensures forall key :: key in acc && key !in KeysOf(ps) ==> r[key] == acc[key]
    ensures forall k :: 0 <= k < |ps| && LastWithKey(ps, k) ==> r[ps[k].key] == ps[k].value
    decreases |ps|
  {
    if |ps| == 0 then acc
    else
      var acc' := acc[ps[0].key := ps[0].value];
      var r := Store(ps[1..], acc');
      SetsOfCons(ps);
      StoreLast(ps, acc, r);
      r
  }

  lemma SetsOfCons(ps: seq<Param>)
    requires |ps| >= 1
    ensures KeysOf(ps) == {ps[0].key} + KeysOf(ps[1..])
    ensures ValuesOf(ps) == {ps[0].value} + ValuesOf(ps[1..])
  {
    assert forall k :: 1 <= k < |ps| ==> ps[k] == ps[1..][k - 1];
    assert forall k :: 0 <= k < |ps| - 1 ==> ps[1..][k] == ps[k + 1];
  }

  /** The step of `Store` that keeps the last value of each key. */
  lemma StoreLast(ps: seq<Param>, acc: Params, r: Params)
    requires |ps| >= 1
    requires r.Keys == acc.Keys + {ps[0].key} + KeysOf(ps[1..])
    requires forall k :: 0 <= k < |ps| - 1 && LastWithKey(ps[1..], k) ==> r[ps[1..][k].key] == ps[1..][k].value
    requires forall key :: key in acc[ps[0].key := ps[0].value] && key !in KeysOf(ps[1..]) ==> r[key] == acc[ps[0].key := ps[0].value][key]
    ensures forall k :: 0 <= k < |ps| && LastWithKey(ps, k) ==> r[ps[k].key] == ps[k].value
  {
    forall k | 0 <= k < |ps| && LastWithKey(ps, k) ensures r[ps[k].key] == ps[k].value {
      if k > 0 {
        assert ps[k] == ps[1..][k - 1];
        assert LastWithKey(ps[1..], k - 1);
      } else {
        assert forall j :: 0 <= j < |ps| - 1 ==> ps[1..][j].key != ps[0].key;
      }
    }
  }

  /** `parse_tag_parameters(params_str)`: string parameters first, then
      boolean parameters, each assignment overwriting earlier ones. */
  function ParseTagParameters(paramsStr: Option<string>): (r: Params)
    ensures paramsStr.None? || paramsStr.value == "" ==> r == map[]
    ensures forall key :: key in r ==> |key| >= 1 && AllWordChars(key)
    ensures forall v :: v in r.Values && v.Str? ==> '"' !in v.text
    ensures paramsStr.Some? && paramsStr.value != "" ==>
      r.Keys == KeysOf(Groups(FindParams(paramsStr.value, 0, StringParam))) + KeysOf(Groups(FindParams(paramsStr.value, 0, BoolParam)))
  {
    if paramsStr.None? || paramsStr.value == "" then map[]
    else
      var s := paramsStr.value;
      var strings := Groups(FindParams(s, 0, StringParam));
      var bools := Groups(FindParams(s, 0, BoolParam));
      MatchesWellFormed(s, strings, StringParam);
      MatchesWellFormed(s, bools, BoolParam);
      Store(bools, Store(strings, map[]))
  }

  /** A non-empty parameter string is parsed by the two scans. */
  lemma ParsedAs(s: string)
    requires s != ""
    ensures ParseTagParameters(Some(s)) == Store(Groups(FindParams(s, 0, BoolParam)), Store(Groups(FindParams(s, 0, StringParam)), map[]))
  {
    var p := Some(s);
    assert !(p.None? || p.value == "");
  }

  /** The keys and values found by a parameter scan are well formed. */
  lemma MatchesWellFormed(s: string, ps: seq<Param>, kind: ParamKind)
    requires ps == Groups(FindParams(s, 0, kind))
    ensures forall key :: key in KeysOf(ps) ==> |key| >= 1 && AllWordChars(key)
    ensures forall v :: v in ValuesOf(ps) && v.Str? ==> '"' !in v.text
  {
    assert forall k :: 0 <= k < |ps| ==> WellFormedParam(ps[k]);
  }

  /** The boolean pass runs last: a key matched as `key=true` or
      `key=false` anywhere holds the flag of its last such match, even when
      the same key was also given as a string. A key never matched by the
      boolean pattern holds the text of its last `key="..."` match. */
  lemma BooleanPassWins(s: string)
    requires s != ""
    ensures var bools := Groups(FindParams(s, 0, BoolParam));
      forall k :: 0 <= k < |bools| && LastWithKey(bools, k) ==>
        ParseTagParameters(Some(s))[bools[k].key] == bools[k].value
    ensures var strings := Groups(FindParams(s, 0, StringParam));
      forall k :: 0 <= k < |strings| && LastWithKey(strings, k) && strings[k].key !in KeysOf(Groups(FindParams(s, 0, BoolParam))) ==>
        ParseTagParameters(Some(s))[strings[k].key] == strings[k].value
  {
  }
}

/** Worked cases of the scanner and the parameter parser: which texts are
    tags, what the tag's group captures, and which parameter spellings are
    ignored. */
module Cases {
  import opened Wrappers
  import opened Text
  import opened Finditer
  import opened Utils

  // ---------------------------------------------------------------------
  // Tags
  // ---------------------------------------------------------------------

  /** Without a `%` there is no tag: `{ sqlalchemy }` and `{sqlalchemy}`
      are plain text. */
  lemma NoPercentNoTags(s: string, p: TagPattern)
    requires '%' !in s
    ensures Scan(s, 0, p) == []
  {
    forall i: nat ensures MatchAt(s, i, p).None? {
    }
    FindAllNowhere(TagMatcher(s, p), |s|, 0);
  }

  lemma BracesOnly(p: TagPattern)
    ensures Scan("{ sqlalchemy }", 0, p) == []
    ensures Scan("{sqlalchemy}", 0, p) == []
  {
    NoPercentNoTags("{ sqlalchemy }", p);
    NoPercentNoTags("{sqlalchemy}", p);
  }

  /** A text that is one tag from end to end is found as that one match. */
  lemma WholeTag(s: string, p: TagPattern, g: Option<string>)
    requires MatchAt(s, 0, p) == Some(Hit(0, |s|, g))
    ensures Scan(s, 0, p) == [Hit(0, |s|, g)]
  {
    FindAllTaken(TagMatcher(s, p), |s|, 0);
  }

  /** A tag built from blanks, the keyword and a valid body is matched
      whole, and its group is what `Capture` makes of the body. */
  lemma TagOf(ws: string, body: string, p: TagPattern)
    requires AllSpace(ws) && ValidBody(body)
    ensures MatchAt("{%" + ws + Keyword + body + "%}", 0, p) == Some(Hit(0, 14 + |ws| + |body|, Capture(body, p)))
  {
    var s := "{%" + ws + Keyword + body + "%}";
    var j := 2 + |ws|;
    var e := j + 10 + |body|;
    TagText(ws, body, s, j, e);
    SkipSpacesLands(s, 2, j);
    IndexOfLands(s, j + 10, e, '%');
    MatchAtGroup(s, j, e, p);
  }

  /** Where the pieces of a built tag sit: the keyword at `j`, the body up
      to `e` and the closing `%}` after it. */
  lemma TagText(ws: string, body: string, s: string, j: nat, e: nat)
    requires AllSpace(ws) && ValidBody(body)
    requires s == "{%" + ws + Keyword + body + "%}" && j == 2 + |ws| && e == j + 10 + |body|
    ensures e + 2 == |s| && s[j + 10..e] == body
    ensures 2 <= j < |s| && AllSpace(s[2..j]) && !IsSpace(s[j])
    ensures j + 10 <= e < |s| && '%' !in s[j + 10..e] && s[e] == '%'
    ensures s[0] == '{' && s[1] == '%' && s[j..j + 10] == Keyword && s[e + 1] == '}'
    ensures e == j + 10 || IsSpace(s[j + 10])
  {
    var front := "{%" + ws;
    var back := body + "%}";
    assert s == front + Keyword + back;
    assert |front| == j;
    assert s[2..j] == ws;
    assert s[j..j + 10] == Keyword;
    assert s[j + 10..] == back;
    assert s[j + 10..e] == body;
    assert e > j + 10 ==> s[j + 10] == body[0];
    assert s[j] == Keyword[0] == 's';
  }

  /** The match at 0 of a text whose keyword sits at `j` and whose first
      `%` after it, at `e`, closes the tag. */
  lemma MatchAtGroup(s: string, j: nat, e: nat, p: TagPattern)
    requires 2 <= j && j + 10 <= e && e + 2 <= |s|
    requires s[0] == '{' && s[1] == '%' && SkipSpaces(s, 2) == j && s[j..j + 10] == Keyword
    requires IndexOf(s, j + 10, '%') == Some(e) && s[e + 1] == '}'
    requires e == j + 10 || IsSpace(s[j + 10])
    ensures MatchAt(s, 0, p) == Some(Hit(0, e + 2, Capture(s[j + 10..e], p)))
  {
    MatchAtIntro(s, 0, j, e, p);
  }

  /** A tag with nothing but blanks before the keyword and at most one
      blank after it, such as `{%sqlalchemy%}` or `{% sqlalchemy %}`, is
      found whole, with no parameters. */
  lemma BareTag(ws: string, body: string, p: TagPattern)
    requires AllSpace(ws) && AllSpace(body) && |body| <= 1
    ensures Scan("{%" + ws + Keyword + body + "%}", 0, p) == [Hit(0, 14 + |ws| + |body|, None)]
  {
    assert body != [] ==> body == [body[0]] && IsSpace(body[0]);
    TagOf(ws, body, p);
    WholeTag("{%" + ws + Keyword + body + "%}", p, None);
  }

  /** A tag whose body is two or more blanks, such as `{%  sqlalchemy  %}`,
      is found whole, and both spellings capture the last blank: `\s+` and
      the group need a character each. */
  lemma BlankBodyTag(ws: string, body: string, p: TagPattern)
    requires AllSpace(ws) && AllSpace(body) && |body| >= 2
    ensures Scan("{%" + ws + Keyword + body + "%}", 0, p) == [Hit(0, 14 + |ws| + |body|, Some([body[|body| - 1]]))]
  {
    var g := Some([body[|body| - 1]]);
    BlankCapture(body, p);
    var s := "{%" + ws + Keyword + body + "%}";
    TagOf(ws, body, p);
    WholeTag(s, p, g);
  }

  /** Both spellings capture the last character of an all-blank body. */
  lemma BlankCapture(body: string, p: TagPattern)
    requires AllSpace(body) && |body| >= 2
    ensures ValidBody(body) && Capture(body, p) == Some([body[|body| - 1]])
  {
    assert '%' !in body by {
      forall k | 0 <= k < |body| ensures body[k] != '%' {
        assert IsSpace(body[k]);
      }
    }
    TrimLeftBlank(body);
    assert body[|body| - 1..] == [body[|body| - 1]];
  }

  /** The lazy `TAG_PATTERN` leaves the blanks before `%}` out of the
      group and the greedy pattern keeps them: for `table="users"` the
      groups are `table="users"` and `table="users" `. */
  lemma LazyDropsTrailingBlanks(g: string, tail: string)
    requires |g| >= 2 && !IsSpace(g[0]) && !IsSpace(g[|g| - 1]) && '%' !in g && AllSpace(tail)
    ensures ValidBody(" " + g + tail)
    ensures Capture(" " + g + tail, LazyParams) == Some(g)
    ensures Capture(" " + g + tail, GreedyParams) == Some(g + tail)
  {
    var rest := g + tail;
    var body := " " + rest;
    assert '%' !in rest by {
      forall k | 0 <= k < |rest| ensures rest[k] != '%' {
        if k >= |g| {
          assert rest[k] == tail[k - |g|] && IsSpace(tail[k - |g|]);
        }
      }
    }
    assert ValidBody(body);
    assert body == " " + g + tail;
    TrimLeftLands(" ", rest);
    TrimRightLands(g, tail);
  }

  /** `lstrip` of nothing but blanks. */
  lemma {:induction false} TrimLeftBlank(w: string)
    requires AllSpace(w)
    ensures TrimLeft(w) == []
    decreases |w|
  {
    if w != [] {
      TrimLeftBlank(w[1..]);
    }
  }

  /** `lstrip` of blanks followed by a non-blank start. */
  lemma {:induction false} TrimLeftLands(w: string, x: string)
    requires AllSpace(w) && x != [] && !IsSpace(x[0])
    ensures TrimLeft(w + x) == x
    decreases |w|
  {
    if w == [] {
      assert w + x == x;
    } else {
      assert (w + x)[1..] == w[1..] + x;
      TrimLeftLands(w[1..], x);
    }
  }

  /** `rstrip` of a non-blank end followed by blanks. */
  lemma {:induction false} TrimRightLands(x: string, w: string)
    requires AllSpace(w) && x != [] && !IsSpace(x[|x| - 1])
    ensures TrimRight(x + w) == x
    decreases |w|
  {
    if w == [] {
      assert x + w == x;
    } else {
      assert (x + w)[..|x + w| - 1] == x + w[..|w| - 1];
      TrimRightLands(x, w[..|w| - 1]);
    }
  }

  // ---------------------------------------------------------------------
  // Parameters
  // ---------------------------------------------------------------------

  /** A string parameter needs its quotes: text without `"` yields no
      string parameter. */
  lemma NoQuoteNoStrings(s: string)
    requires '"' !in s
    ensures FindParams(s, 0, StringParam) == []
  {
    forall i: nat ensures ParamAt(s, i, StringParam).None? {
    }
    FindAllNowhere(ParamMatcher(s, StringParam), |s|, 0);
  }

  /** A boolean parameter needs a lowercase `true` or `false` right after
      its `=`: text where no `=` is followed by `t` or `f` yields none. */
  lemma NoLiteralNoBools(s: string)
    requires NoBoolLiteral(s)
    ensures FindParams(s, 0, BoolParam) == []
  {
    forall i: nat ensures ParamAt(s, i, BoolParam).None? {
      if ParamAt(s, i, BoolParam).Some? {
        BoolLiteralAt(s, i);
      }
    }
    FindAllNowhere(ParamMatcher(s, BoolParam), |s|, 0);
  }

  /** No `=` of `s` is followed by `t` or `f`. */
  predicate NoBoolLiteral(s: string) {
    forall k :: 0 <= k < |s| - 1 && s[k] == '=' ==> s[k + 1] != 't' && s[k + 1] != 'f'
  }

  /** A boolean match has `=` and then `t` or `f` after its key. */
  lemma BoolLiteralAt(s: string, i: nat)
    requires ParamAt(s, i, BoolParam).Some?
    ensures var m := ParamAt(s, i, BoolParam).value; var k := i + |m.groups.key|;
      k + 1 < |s| && s[k] == '=' && (s[k + 1] == 't' || s[k + 1] == 'f')
  {
    var m := ParamAt(s, i, BoolParam).value;
    var key := m.groups.key;
    var t := s[i..m.end];
    assert t[|key|] == '=' && (t[|key| + 1] == 't' || t[|key| + 1] == 'f');
    assert s[i + |key|] == t[|key|] && s[i + |key| + 1] == t[|key| + 1];
  }

  /** Text with neither kind of parameter parses to no parameters. */
  lemma NothingParsed(s: string)
    requires '"' !in s && NoBoolLiteral(s)
    ensures ParseTagParameters(Some(s)) == map[]
  {
    NoQuoteNoStrings(s);
    NoLiteralNoBools(s);
  }

  /** A key and `=` followed by an unquoted value that is not a lowercase
      literal give no parameter: `table=users`, `show_indexes=yes` and
      `show_indexes=True` all parse to nothing. */
  lemma UnquotedValue(key: string, v: string)
    requires AllWordChars(key) && v != [] && v[0] != 't' && v[0] != 'f' && '"' !in v && '=' !in v
    ensures key + "=" + v != ""
    ensures ParseTagParameters(Some(key + "=" + v)) == map[]
  {
    var s := key + "=" + v;
    forall k | 0 <= k < |s| ensures s[k] != '"' && (s[k] == '=' ==> k == |key|) {
      if k < |key| {
        assert s[k] == key[k];
      } else if k > |key| {
        assert s[k] == v[k - |key| - 1];
      }
    }
    NoBoolLiteralOnce(s, |key|);
    NothingParsed(s);
  }

  /** Text whose only `=` is followed by neither `t` nor `f`. */
  lemma NoBoolLiteralOnce(s: string, e: nat)
    requires e + 1 < |s| && s[e + 1] != 't' && s[e + 1] != 'f'
    requires forall k :: 0 <= k < |s| && s[k] == '=' ==> k == e
    ensures NoBoolLiteral(s)
  {
  }

  /** A single quoted parameter parses to that one key and its text:
      `table="users"`, `table="user profiles"` and `table=""` each give
      one string entry. */
  lemma QuotedParam(key: string, v: string)
    requires |key| >= 1 && AllWordChars(key) && '"' !in v && '=' !in v
    ensures ParseTagParameters(Some(key + "=\"" + v + "\"")) == map[key := Str(v)]
  {
    var s := key + "=\"" + v + "\"";
    var n := |key|;
    QuotedText(key, v, s);
    WordEndLands(s, 0, n);
    IndexOfLands(s, n + 2, |s| - 1, '"');
    var hit := Hit(0, |s|, Param(key, Str(v)));
    assert ParamAt(s, 0, StringParam) == Some(hit);
    FindAllTaken(ParamMatcher(s, StringParam), |s|, 0);
    assert FindParams(s, 0, StringParam) == [hit];
    NoBoolLiteralOnce(s, n);
    NoLiteralNoBools(s);
  }

  /** Where the pieces of `key="v"` sit. */
  lemma QuotedText(key: string, v: string, s: string)
    requires |key| >= 1 && AllWordChars(key) && '"' !in v && '=' !in v
    requires s == key + "=\"" + v + "\""
    ensures |s| == |key| + 3 + |v| && s[..|key|] == key && s[|key| + 2..|s| - 1] == v
    ensures s[|key|] == '=' && s[|key| + 1] == '"' && s[|s| - 1] == '"'
    ensures AllWordChars(s[0..|key|]) && !IsWordChar(s[|key|])
    ensures '"' !in s[|key| + 2..|s| - 1]
    ensures forall k :: 0 <= k < |s| && s[k] == '=' ==> k == |key|
  {
    var n := |key|;
    assert s[..n] == s[0..n] == key;
    assert s[n + 2..|s| - 1] == v;
    assert forall k :: 0 <= k < n ==> s[k] == key[k];
    assert forall k :: n + 2 <= k < |s| - 1 ==> s[k] == v[k - n - 2];
  }

  /** A single lowercase boolean parameter parses to that one key and its
      flag: `show_indexes=true` gives `{"show_indexes": True}`. */
  lemma FlagParam(key: string, flag: bool)
    requires |key| >= 1 && AllWordChars(key)
    ensures ParseTagParameters(Some(key + "=" + (if flag then "true" else "false"))) == map[key := Bool(flag)]
  {
    var lit := if flag then "true" else "false";
    var s := key + "=" + lit;
    var n := |key|;
    FlagText(key, lit, s);
    WordEndLands(s, 0, n);
    var hit := Hit(0, |s|, Param(key, Bool(flag)));
    assert ParamAt(s, 0, BoolParam) == Some(hit);
    FindAllTaken(ParamMatcher(s, BoolParam), |s|, 0);
    assert FindParams(s, 0, BoolParam) == [hit];
    NoQuoteNoStrings(s);
  }

  /** Where the pieces of `key=true` or `key=false` sit. */
  lemma FlagText(key: string, lit: string, s: string)
    requires |key| >= 1 && AllWordChars(key) && (lit == "true" || lit == "false")
    requires s == key + "=" + lit
    ensures |s| == |key| + 1 + |lit| && s[..|key|] == key && s[|key| + 1..] == lit
    ensures s[|key|] == '=' && AllWordChars(s[0..|key|]) && !IsWordChar(s[|key|])
    ensures StartsWith(s[|key| + 1..], "true") <==> lit == "true"
    ensures '"' !in s
  {
    var n := |key|;
    assert s[..n] == s[0..n] == key;
    assert s[n + 1..] == lit;
    assert forall k :: 0 <= k < n ==> s[k] == key[k];
    assert forall k :: n < k < |s| ==> s[k] == lit[k - n - 1];
    assert '"' !in lit;
    assert StartsWith(s[n + 1..], "true") <==> lit == "true" by {
      assert lit == "false" ==> lit[..4] != "true" by {
        assert lit == "false" ==> lit[0] == 'f';
      }
    }
  }
}

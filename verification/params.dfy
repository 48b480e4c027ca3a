/** Tag parameters as an author writes them, read back by
    `parse_tag_parameters`. Written as `key="text"`, `key=true` or
    `key=false` and separated by single spaces, a list of parameters parses
    to the dictionary built by assigning first every string parameter and
    then every boolean one, each in the order written: the last boolean
    with a key wins, and a key no boolean names holds its last string. */
module ParamSyntax {
  import opened Wrappers
  import opened Text
  import opened Seqs
  import opened Finditer
  import opened Utils

  /** A parameter the two patterns read back as written: a word key and,
      for a string, text with no `"` (which would end it early) and no `=`
      (after which a word of the text could read as another parameter). */
  predicate Writable(p: Param) {
    && |p.key| >= 1 && AllWordChars(p.key)
    && (p.value.Str? ==> '"' !in p.value.text && '=' !in p.value.text)
  }

  function KindOf(v: ParamValue): ParamKind {
    if v.Str? then StringParam else BoolParam
  }

  predicate IsStrParam(p: Param) {
    p.value.Str?
  }

  predicate IsBoolParam(p: Param) {
    p.value.Bool?
  }

  /** The parameters a scan of the given kind reads. */
  function OfKind(kind: ParamKind): Param -> bool {
    if kind == StringParam then IsStrParam else IsBoolParam
  }

  /** How a parameter is written: `key="text"`, or `key=true` / `key=false`. */
  function Source(p: Param): (t: string)
    ensures |t| > |p.key|
  {
    match p.value
    case Str(text) => p.key + "=\"" + text + "\""
    case Bool(flag) => p.key + "=" + (if flag then "true" else "false")
  }

  /** A writable parameter's text is what the pattern of its kind matches,
      with its key and value. */
  lemma SourceMatches(p: Param)
    requires Writable(p)
    ensures IsParamText(Source(p), p.key, p.value, KindOf(p.value))
  {
  }

  function Sources(ps: seq<Param>): (r: seq<string>)
    ensures |r| == |ps| && forall i :: 0 <= i < |ps| ==> r[i] == Source(ps[i])
  {
    seq(|ps|, i requires 0 <= i < |ps| => Source(ps[i]))
  }

  /** The parameters written out, a single space between each. */
  function Written(ps: seq<Param>): string {
    if |ps| == 0 then ""
    else if |ps| == 1 then Source(ps[0])
    else Source(ps[0]) + " " + Written(ps[1..])
  }

  /** `Written` is `" ".join` of the parameters' texts. */
  lemma {:induction false} WrittenJoins(ps: seq<Param>)
    ensures Written(ps) == Join(Sources(ps), " ")
    decreases |ps|
  {
    if |ps| >= 2 {
      WrittenJoins(ps[1..]);
      assert Sources(ps)[1..] == Sources(ps[1..]);
    }
  }

  /** Written parameters parse back: the result is what assigning the
      string parameters and then the boolean ones, in order, builds. */
  lemma ParseWritten(ps: seq<Param>)
    requires forall i :: 0 <= i < |ps| ==> Writable(ps[i])
    ensures ParseTagParameters(Some(Written(ps))) == Store(Filter(ps, IsBoolParam), Store(Filter(ps, IsStrParam), map[]))
  {
    if |ps| >= 1 {
      var s := Written(ps);
      assert s[0..] == s;
      ScanWritten(s, 0, ps, StringParam);
      ScanWritten(s, 0, ps, BoolParam);
      assert FindParams(s, 0, StringParam) == FindAll(ParamMatcher(s, StringParam), |s|, 0);
      assert FindParams(s, 0, BoolParam) == FindAll(ParamMatcher(s, BoolParam), |s|, 0);
      assert OfKind(StringParam) == IsStrParam && OfKind(BoolParam) == IsBoolParam;
      ParsedAs(s);
    }
  }

  /** The parsed keys are exactly the written ones. */
  lemma WrittenKeys(ps: seq<Param>)
    requires forall i :: 0 <= i < |ps| ==> Writable(ps[i])
    ensures ParseTagParameters(Some(Written(ps))).Keys == KeysOf(ps)
  {
    ParseWritten(ps);
    KeysSplit(ps);
  }

  /** Every parameter is a string or a boolean one. */
  lemma KeysSplit(ps: seq<Param>)
    ensures KeysOf(Filter(ps, IsStrParam)) + KeysOf(Filter(ps, IsBoolParam)) == KeysOf(ps)
  {
    var strs := Filter(ps, IsStrParam);
    var bools := Filter(ps, IsBoolParam);
    FilterMembers(ps, IsStrParam);
    FilterMembers(ps, IsBoolParam);
    forall key | key in KeysOf(ps) ensures key in KeysOf(strs) + KeysOf(bools) {
      var i :| 0 <= i < |ps| && ps[i].key == key;
      if IsStrParam(ps[i]) {
        assert ps[i] in strs;
      } else {
        assert ps[i] in bools;
      }
    }
    forall key | key in KeysOf(strs) ensures key in KeysOf(ps) {
      var k :| 0 <= k < |strs| && strs[k].key == key;
      assert strs[k] in ps;
    }
    forall key | key in KeysOf(bools) ensures key in KeysOf(ps) {
      var k :| 0 <= k < |bools| && bools[k].key == key;
      assert bools[k] in ps;
    }
  }

  /** The value a written key parses to: its last boolean when there is
      one, otherwise its last string. */
  lemma WrittenValue(ps: seq<Param>, i: nat)
    requires forall j :: 0 <= j < |ps| ==> Writable(ps[j])
    requires i < |ps|
    requires forall j :: i < j < |ps| && ps[j].key == ps[i].key ==> KindOf(ps[j].value) != KindOf(ps[i].value)
    requires ps[i].value.Str? ==> forall j :: 0 <= j < |ps| && ps[j].key == ps[i].key ==> ps[j].value.Str?
    ensures var r := ParseTagParameters(Some(Written(ps))); ps[i].key in r && r[ps[i].key] == ps[i].value
  {
    ParseWritten(ps);
    if ps[i].value.Bool? {
      var j := LastInFilter(ps, IsBoolParam, i);
    } else {
      var j := LastInFilter(ps, IsStrParam, i);
      NoKeyInFilter(ps, IsBoolParam, ps[i].key);
    }
  }

  /** The last parameter passing `f` with its key is the last with its key
      in the filtered sequence too. */
  lemma LastInFilter(ps: seq<Param>, f: Param -> bool, i: nat) returns (j: nat)
    requires i < |ps| && f(ps[i])
    requires forall j :: i < j < |ps| && ps[j].key == ps[i].key ==> !f(ps[j])
    ensures j < |Filter(ps, f)| && Filter(ps, f)[j] == ps[i] && LastWithKey(Filter(ps, f), j)
  {
    j := FilterAt(ps, f, i);
    var fs := Filter(ps, f);
    var later := Filter(ps[i + 1..], f);
    FilterMembers(ps[i + 1..], f);
    forall k | j < k < |fs| ensures fs[k].key != ps[i].key {
      assert fs[k] == later[k - j - 1];
      var m :| 0 <= m < |ps[i + 1..]| && ps[i + 1..][m] == fs[k];
      assert ps[i + 1 + m] == fs[k];
    }
  }

  /** A key no parameter passing `f` has is not a key of the filtered
      sequence. */
  lemma NoKeyInFilter(ps: seq<Param>, f: Param -> bool, key: string)
    requires forall j :: 0 <= j < |ps| && ps[j].key == key ==> !f(ps[j])
    ensures key !in KeysOf(Filter(ps, f))
  {
    var fs := Filter(ps, f);
    FilterMembers(ps, f);
    forall k | 0 <= k < |fs| ensures fs[k].key != key {
      var m :| 0 <= m < |ps| && ps[m] == fs[k];
    }
  }

  /** Scanning written parameters from offset `o` finds, in order, exactly
      those of the scan's kind. */
  lemma {:induction false} ScanWritten(s: string, o: nat, ps: seq<Param>, kind: ParamKind)
    requires o <= |s| && s[o..] == Written(ps) && |ps| >= 1
    requires forall i :: 0 <= i < |ps| ==> Writable(ps[i])
    ensures Groups(FindAll(ParamMatcher(s, kind), |s|, o)) == Filter(ps, OfKind(kind))
    decreases |ps|
  {
    var hits, next := ItemStep(s, o, ps, kind);
    var head := FilterCons(ps, OfKind(kind));
    if |ps| >= 2 {
      ScanWritten(s, next, ps[1..], kind);
      GroupsAppend(hits, FindAll(ParamMatcher(s, kind), |s|, next));
    }
  }

  /** The scan over the first written parameter and the space after it:
      its match when the kinds agree, then the scan of the rest. */
  lemma ItemStep(s: string, o: nat, ps: seq<Param>, kind: ParamKind) returns (hits: seq<ParamMatch>, next: nat)
    requires o <= |s| && s[o..] == Written(ps) && |ps| >= 1 && Writable(ps[0])
    ensures Groups(hits) == (if OfKind(kind)(ps[0]) then [ps[0]] else [])
    ensures |ps| == 1 ==> FindAll(ParamMatcher(s, kind), |s|, o) == hits
    ensures |ps| >= 2 ==> next <= |s| && s[next..] == Written(ps[1..])
    ensures |ps| >= 2 ==> FindAll(ParamMatcher(s, kind), |s|, o) == hits + FindAll(ParamMatcher(s, kind), |s|, next)
  {
    var end := WrittenAt(s, o, ps);
    hits := ScanItem(s, o, ps[0], kind);
    next := end + 1;
  }

  /** The scan over one written parameter followed by the end of the text
      or a space. */
  lemma ScanItem(s: string, o: nat, p: Param, kind: ParamKind) returns (hits: seq<ParamMatch>)
    requires Writable(p) && o + |Source(p)| <= |s| && s[o..o + |Source(p)|] == Source(p)
    requires o + |Source(p)| == |s| || s[o + |Source(p)|] == ' '
    ensures Groups(hits) == (if OfKind(kind)(p) then [p] else [])
    ensures o + |Source(p)| == |s| ==> FindAll(ParamMatcher(s, kind), |s|, o) == hits
    ensures o + |Source(p)| < |s| ==>
      FindAll(ParamMatcher(s, kind), |s|, o) == hits + FindAll(ParamMatcher(s, kind), |s|, o + |Source(p)| + 1)
  {
    var e := o + |Source(p)|;
    var at := ParamMatcher(s, kind);
    ItemScan(s, o, p, kind);
    assert e < |s| ==> at(e).None?;
    if OfKind(kind)(p) {
      assert at(o) == Some(Hit(o, e, p));
      hits := StepOver(at, |s|, o, e, Some(Hit(o, e, p)));
      assert Groups(hits) == [p];
    } else {
      assert forall i: nat :: o <= i < e ==> at(i).None?;
      hits := StepOver(at, |s|, o, e, None);
    }
  }

  /** Where the first written parameter sits, and what follows it. */
  lemma WrittenAt(s: string, o: nat, ps: seq<Param>) returns (end: nat)
    requires o <= |s| && s[o..] == Written(ps) && |ps| >= 1
    ensures end == o + |Source(ps[0])| <= |s| && s[o..end] == Source(ps[0])
    ensures |ps| == 1 ==> end == |s|
    ensures |ps| >= 2 ==> end < |s| && s[end] == ' ' && s[end + 1..] == Written(ps[1..])
  {
    var t := Source(ps[0]);
    end := o + |t|;
    if |ps| == 1 {
      PrefixAt(s, o, t, "");
    } else {
      PrefixAt(s, o, t, " " + Written(ps[1..]));
      PrefixAt(s, end, " ", Written(ps[1..]));
    }
  }

  lemma PrefixAt(s: string, o: nat, a: string, b: string)
    requires o <= |s| && s[o..] == a + b
    ensures o + |a| <= |s| && s[o..o + |a|] == a && s[o + |a|..] == b
    ensures |a| >= 1 ==> s[o] == a[0]
  {
    assert s[o..o + |a|] == s[o..][..|a|];
    assert s[o + |a|..] == s[o..][|a|..];
  }

  lemma GroupsAppend(a: seq<ParamMatch>, b: seq<ParamMatch>)
    ensures Groups(a + b) == Groups(a) + Groups(b)
  {
  }

  /** One written parameter at offset `o`, followed by the end of the text
      or a non-word character: the scan of its kind matches exactly it
      there, and the scan of the other kind matches nowhere inside it. */
  lemma ItemScan(s: string, o: nat, p: Param, kind: ParamKind)
    requires Writable(p) && o + |Source(p)| <= |s| && s[o..o + |Source(p)|] == Source(p)
    requires o + |Source(p)| == |s| || s[o + |Source(p)|] == ' '
    ensures OfKind(kind)(p) ==> ParamAt(s, o, kind) == Some(Hit(o, o + |Source(p)|, p))
    ensures !OfKind(kind)(p) ==> forall i :: o <= i < o + |Source(p)| ==> ParamAt(s, i, kind).None?
    ensures ParamAt(s, o + |Source(p)|, kind).None?
  {
    var e := o + |Source(p)|;
    SourceMatches(p);
    ParamTextParts(s, o, e, p.key, p.value, KindOf(p.value));
    if OfKind(kind)(p) {
      ParamAtComplete(s, o, e, p.key, p.value, kind);
    } else {
      forall i | o <= i < e ensures ParamAt(s, i, kind).None? {
        if p.value.Str? {
          StringNoBool(s, o, e, p, i);
        } else {
          BoolNoString(s, o, e, p, i);
        }
      }
    }
  }

  /** What a match of the given kind at `i` needs: a word character, the
      run of them ended by `=`, and after it `"` or the first letter of a
      boolean literal. */
  lemma ParamAtStart(s: string, i: nat, kind: ParamKind)
    requires ParamAt(s, i, kind).Some?
    ensures i < |s| && IsWordChar(s[i])
    ensures var q := WordEnd(s, i); q + 1 < |s| && s[q] == '='
    ensures var q := WordEnd(s, i); kind == StringParam ==> s[q + 1] == '"'
    ensures var q := WordEnd(s, i); kind == BoolParam ==> s[q + 1] == 't' || s[q + 1] == 'f'
  {
    var q := WordEnd(s, i);
    if kind == BoolParam {
      if StartsWith(s[q + 1..], "true") {
        assert s[q + 1] == s[q + 1..][..4][0];
      } else {
        assert s[q + 1] == s[q + 1..][..5][0];
      }
    }
  }

  /** The boolean scan finds nothing inside `key="text"`: after the key
      comes `"`, and a word inside the text is not followed by `=`. */
  lemma StringNoBool(s: string, o: nat, e: nat, p: Param, i: nat)
    requires Writable(p) && p.value.Str? && o <= i < e <= |s|
    requires var q := o + |p.key|; o < q < e && AllWordChars(s[o..q]) && s[q] == '='
    requires var q := o + |p.key|;
      q + 2 < e && s[q + 1] == '"' && s[q + 2..e - 1] == p.value.text && s[e - 1] == '"'
    ensures ParamAt(s, i, BoolParam).None?
  {
    var q := o + |p.key|;
    if i < q {
      SliceOfSlice(s, o, q, i - o, q - o);
      KeyThenWrongValue(s, i, q, BoolParam);
    } else if q + 2 <= i < e - 1 {
      InsideText(s, q + 2, e - 1, i, BoolParam);
    }
  }

  /** No match starts inside quoted text free of `=`: a word there ends at
      the closing quote at the latest, and no `=` follows it. */
  lemma InsideText(s: string, a: nat, b: nat, i: nat, kind: ParamKind)
    requires a <= i < b < |s| && '=' !in s[a..b] && s[b] == '"'
    ensures ParamAt(s, i, kind).None?
  {
    var w := WordEnd(s, i);
    WordEndBefore(s, i, b);
    assert w < b ==> s[w] == s[a..b][w - a];
    WordNotKey(s, i, kind);
  }

  /** The string scan finds nothing inside `key=true` or `key=false`:
      after the key comes a letter, and the literal's own word ends at the
      end of the parameter, not at `=`. */
  lemma BoolNoString(s: string, o: nat, e: nat, p: Param, i: nat)
    requires Writable(p) && p.value.Bool? && o <= i < e <= |s|
    requires e == |s| || s[e] == ' '
    requires var q := o + |p.key|; o < q < e && AllWordChars(s[o..q]) && s[q] == '='
    requires var q := o + |p.key|; s[q + 1..e] == (if p.value.flag then "true" else "false")
    ensures ParamAt(s, i, StringParam).None?
  {
    var q := o + |p.key|;
    var lit := s[q + 1..e];
    if i < q {
      assert lit[0] == 't' || lit[0] == 'f';
      assert s[q + 1] == lit[0];
      SliceOfSlice(s, o, q, i - o, q - o);
      KeyThenWrongValue(s, i, q, StringParam);
    } else if q < i {
      LiteralsAreWords();
      assert s[i..e] == lit[i - q - 1..];
      WordEndLands(s, i, e);
      WordNotKey(s, i, StringParam);
    }
  }

  lemma LiteralsAreWords()
    ensures AllWordChars("true") && AllWordChars("false")
  {
  }

  /** A key and `=` followed by what cannot start the value the pattern
      wants give no match. */
  lemma KeyThenWrongValue(s: string, i: nat, q: nat, kind: ParamKind)
    requires i < q && q + 1 < |s| && AllWordChars(s[i..q]) && s[q] == '='
    requires kind == StringParam ==> s[q + 1] != '"'
    requires kind == BoolParam ==> s[q + 1] != 't' && s[q + 1] != 'f'
    ensures ParamAt(s, i, kind).None?
  {
    WordEndLands(s, i, q);
    if ParamAt(s, i, kind).Some? {
      ParamAtStart(s, i, kind);
    }
  }

  /** A word not followed by `=` is not a key. */
  lemma WordNotKey(s: string, i: nat, kind: ParamKind)
    requires i <= |s|
    requires WordEnd(s, i) == |s| || s[WordEnd(s, i)] != '='
    ensures ParamAt(s, i, kind).None?
  {
  }
}

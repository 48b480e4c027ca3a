/** The handful of Python `str` operations the plugin relies on, over
    `string` (a sequence of Unicode scalar values): `strip`, `rstrip`,
    `split`, `join`, `replace`, `startswith` and the ordering `<=`.
    Whitespace is Python's; word characters are the ASCII ones. */
module Text {
  import opened Wrappers

  /** Python's whitespace, what `str.isspace()`, `str.strip()` and `\s` in a
      `str` pattern recognise: the controls U+0009 to U+000D and U+001C to
      U+001F, the space, U+0085, U+00A0, U+1680, U+2000 to U+200A, U+2028,
      U+2029, U+202F, U+205F and U+3000. */
  predicate IsSpace(c: char) {
    || '\t' <= c <= '\r'
    || '\U{001C}' <= c <= ' '
    || c == '\U{0085}' || c == '\U{00A0}' || c == '\U{1680}'
    || '\U{2000}' <= c <= '\U{200A}'
    || c == '\U{2028}' || c == '\U{2029}' || c == '\U{202F}' || c == '\U{205F}' || c == '\U{3000}'
  }

  /** ASCII word characters, the class `\w` in the parameter patterns. */
  predicate IsWordChar(c: char) {
    ('a' <= c <= 'z') || ('A' <= c <= 'Z') || ('0' <= c <= '9') || c == '_'
  }

  predicate AllSpace(s: string) {
    forall i :: 0 <= i < |s| ==> IsSpace(s[i])
  }

  predicate AllWordChars(s: string) {
    forall i :: 0 <= i < |s| ==> IsWordChar(s[i])
  }

  /** `s.startswith(prefix)` */
  predicate StartsWith(s: string, prefix: string) {
    |prefix| <= |s| && s[..|prefix|] == prefix
  }

  /** Number of occurrences of `c` in `s`. */
  function Count(s: string, c: char): nat {
    if |s| == 0 then 0 else (if s[0] == c then 1 else 0) + Count(s[1..], c)
  }

  lemma {:induction false} CountConcat(a: string, b: string, c: char)
    ensures Count(a + b, c) == Count(a, c) + Count(b, c)
    decreases |a|
  {
    if |a| == 0 {
      assert a + b == b;
    } else {
      assert (a + b)[1..] == a[1..] + b;
      CountConcat(a[1..], b, c);
    }
  }

  lemma CountAbsent(s: string, c: char)
    requires c !in s
    ensures Count(s, c) == 0
  {
    if |s| > 0 {
      assert s[0] != c;
      assert forall k :: 0 <= k < |s| - 1 ==> s[1..][k] == s[k + 1];
      CountAbsent(s[1..], c);
    }
  }

  /** The first index at or after `from` holding `c`, like `s.find(c, from)`. */
  function IndexOf(s: string, from: nat, c: char): (r: Option<nat>)
    ensures r.Some? ==> from <= r.value < |s| && s[r.value] == c
    ensures r.Some? ==> forall k :: from <= k < r.value ==> s[k] != c
    ensures r.None? ==> forall k :: from <= k < |s| ==> s[k] != c
    decreases |s| - from
  {
    if from >= |s| then None
    else if s[from] == c then Some(from)
    else IndexOf(s, from + 1, c)
  }

  /** `s.lstrip()`: the suffix of `s` left after removing leading whitespace. */
  function TrimLeft(s: string): (r: string)
    ensures |r| <= |s| && r == s[|s| - |r|..]
    ensures AllSpace(s[..|s| - |r|])
    ensures r == [] || !IsSpace(r[0])
  {
    if |s| > 0 && IsSpace(s[0]) then
      var t := s[1..];
      var r := TrimLeft(t);
      assert r == s[|s| - |r|..] by {
        assert t[|t| - |r|..] == s[|s| - |r|..];
      }
      assert AllSpace(s[..|s| - |r|]) by {
        var w := s[..|s| - |r|];
        assert w == [s[0]] + t[..|t| - |r|];
        forall k | 0 <= k < |w| ensures IsSpace(w[k]) {
          if k > 0 {
            assert w[k] == t[..|t| - |r|][k - 1];
          }
        }
      }
      r
    else s
  }

  /** `s.rstrip()`: the prefix of `s` left after removing trailing whitespace. */
  function TrimRight(s: string): (r: string)
    ensures |r| <= |s| && r == s[..|r|]
    ensures AllSpace(s[|r|..])
    ensures r == [] || !IsSpace(r[|r| - 1])
  {
    if |s| > 0 && IsSpace(s[|s| - 1]) then
      var t := s[..|s| - 1];
      var r := TrimRight(t);
      assert r == s[..|r|] by {
        assert t[..|r|] == s[..|r|];
      }
      assert AllSpace(s[|r|..]) by {
        var w := s[|r|..];
        assert w == t[|r|..] + [s[|s| - 1]];
        forall k | 0 <= k < |w| ensures IsSpace(w[k]) {
          if k < |w| - 1 {
            assert w[k] == t[|r|..][k];
          }
        }
      }
      r
    else s
  }

  /** `s` has no leading or trailing whitespace. */
  predicate Stripped(s: string) {
    s == [] || (!IsSpace(s[0]) && !IsSpace(s[|s| - 1]))
  }

  /** `r` is the slice of `s` from `a` on, with only whitespace before it
      and after it. */
  ghost predicate TrimmedAt(s: string, r: string, a: nat) {
    a + |r| <= |s| && r == s[a..a + |r|] && AllSpace(s[..a]) && AllSpace(s[a + |r|..])
  }

  /** `s.strip()`: `s` without its leading and trailing whitespace. */
  function Strip(s: string): (r: string)
    ensures Stripped(r)
    ensures exists a: nat :: TrimmedAt(s, r, a)
    ensures |r| <= |s| && forall c :: c in r ==> c in s
    ensures r == [] <==> AllSpace(s)
  {
    var l := TrimLeft(s);
    var r := TrimRight(l);
    StripParts(s, l, r);
    r
  }

  /** The facts about `strip()` that follow from its two halves. */
  lemma StripParts(s: string, l: string, r: string)
    requires |l| <= |s| && l == s[|s| - |l|..] && AllSpace(s[..|s| - |l|]) && (l == [] || !IsSpace(l[0]))
    requires |r| <= |l| && r == l[..|r|] && AllSpace(l[|r|..])
    ensures TrimmedAt(s, r, |s| - |l|)
    ensures |r| <= |s| && forall c :: c in r ==> c in s
    ensures r == [] <==> AllSpace(s)
  {
    var i := |s| - |l|;
    assert s[i..i + |r|] == r;
    assert s[i + |r|..] == l[|r|..];
    forall c | c in r ensures c in s {
      var k :| 0 <= k < |r| && r[k] == c;
      assert l[k] == c;
      assert s[i + k] == c;
    }
    if r == [] {
      assert l[0..] == l;
      assert s[..i] == s;
    } else {
      assert l[0] == s[i];
    }
  }

  /** `strip()` is the only way to cut `s` down to a stripped slice with
      whitespace around it that is empty only when `s` is all whitespace:
      its contract determines it. */
  lemma StripUnique(s: string, r': string, a': nat)
    requires Stripped(r') && TrimmedAt(s, r', a') && (r' == [] ==> AllSpace(s))
    ensures r' == Strip(s)
  {
    var r := Strip(s);
    var a: nat :| TrimmedAt(s, r, a);
    if r' != [] {
      TrimmedSame(s, r, a, r', a');
    }
  }

  /** Two non-empty stripped slices of `s` with only whitespace around them
      are the same slice. */
  lemma TrimmedSame(s: string, r: string, a: nat, r': string, a': nat)
    requires r != [] && r' != [] && Stripped(r) && Stripped(r')
    requires TrimmedAt(s, r, a) && TrimmedAt(s, r', a')
    ensures r == r'
  {
    SpacesBefore(s, a);
    SpacesBefore(s, a');
    SpacesAfter(s, a + |r|);
    SpacesAfter(s, a' + |r'|);
    assert s[a] == r[0] && s[a'] == r'[0];
    assert s[a + |r| - 1] == r[|r| - 1] && s[a' + |r'| - 1] == r'[|r'| - 1];
    assert a == a';
    assert a + |r| == a' + |r'|;
  }

  lemma SpacesBefore(s: string, a: nat)
    requires a <= |s| && AllSpace(s[..a])
    ensures forall k :: 0 <= k < a ==> IsSpace(s[k])
  {
    assert forall k :: 0 <= k < a ==> s[..a][k] == s[k];
  }

  lemma SpacesAfter(s: string, a: nat)
    requires a <= |s| && AllSpace(s[a..])
    ensures forall k :: a <= k < |s| ==> IsSpace(s[k])
  {
    assert forall k :: a <= k < |s| ==> s[a..][k - a] == s[k];
  }

  /** A string with no surrounding whitespace is its own `strip()`. */
  lemma StripUnchanged(s: string)
    requires Stripped(s)
    ensures Strip(s) == s
  {
  }

  /** A join ends with the end of its last part. */
  lemma {:induction false} JoinLast(parts: seq<string>, sep: string)
    requires |parts| >= 1 && parts[|parts| - 1] != []
    ensures var j := Join(parts, sep); var l := parts[|parts| - 1];
      j != [] && j[|j| - 1] == l[|l| - 1]
    decreases |parts|
  {
    if |parts| > 1 {
      JoinLast(parts[1..], sep);
    }
  }

  /** `sep.join(parts)` */
  function Join(parts: seq<string>, sep: string): string {
    if |parts| == 0 then ""
    else if |parts| == 1 then parts[0]
    else parts[0] + sep + Join(parts[1..], sep)
  }

  /** `s.split(sep)` for a one-character separator: the maximal
      separator-free pieces, one more than there are separators. */
  function Split(s: string, sep: char): (r: seq<string>)
    ensures |r| == Count(s, sep) + 1
    ensures forall i :: 0 <= i < |r| ==> sep !in r[i]
    ensures Join(r, [sep]) == s
    decreases |s|
  {
    match IndexOf(s, 0, sep)
    case None =>
      CountAbsent(s, sep);
      [s]
    case Some(i) =>
      var rest := Split(s[i + 1..], sep);
      assert s == s[..i] + [sep] + s[i + 1..];
      CountConcat(s[..i] + [sep], s[i + 1..], sep);
      CountConcat(s[..i], [sep], sep);
      CountAbsent(s[..i], sep);
      assert ([s[..i]] + rest)[1..] == rest;
      [s[..i]] + rest
  }

  /** Splitting what was joined gives back the pieces, provided none of
      them contains the separator: `Split` and `Join` are inverses. */
  lemma {:induction false} SplitJoin(parts: seq<string>, sep: char)
    requires |parts| >= 1
    requires forall i :: 0 <= i < |parts| ==> sep !in parts[i]
    ensures Split(Join(parts, [sep]), sep) == parts
    decreases |parts|
  {
    var s := Join(parts, [sep]);
    if |parts| == 1 {
      assert IndexOf(s, 0, sep).None?;
    } else {
      var p := parts[0];
      assert s == p + [sep] + Join(parts[1..], [sep]);
      assert s[|p|] == sep;
      assert forall k :: 0 <= k < |p| ==> s[k] == p[k];
      assert IndexOf(s, 0, sep) == Some(|p|);
      assert s[..|p|] == p;
      assert s[|p| + 1..] == Join(parts[1..], [sep]);
      SplitJoin(parts[1..], sep);
      assert parts == [p] + parts[1..];
    }
  }

  /** Joining two non-empty lists joins each and puts one separator
      between them. */
  lemma {:induction false} JoinAppend(a: seq<string>, b: seq<string>, sep: string)
    requires |a| >= 1 && |b| >= 1
    ensures Join(a + b, sep) == Join(a, sep) + sep + Join(b, sep)
    decreases |a|
  {
    if |a| == 1 {
      assert (a + b)[1..] == b;
    } else {
      assert (a + b)[1..] == a[1..] + b;
      JoinAppend(a[1..], b, sep);
    }
  }

  /** Joining between two empty ends puts the separator on the outside. */
  lemma Framed(parts: seq<string>, sep: string)
    requires |parts| >= 1
    ensures Join([""] + parts + [""], sep) == sep + Join(parts, sep) + sep
  {
    var tail := parts + [""];
    JoinAppend(parts, [""], sep);
    JoinAppend([""], tail, sep);
    assert [""] + parts + [""] == [""] + tail;
  }

  lemma JoinThree(a: string, b: string, c: string, sep: string)
    ensures Join([a, b, c], sep) == a + sep + b + sep + c
  {
    var bc := [b, c];
    assert [a, b, c][1..] == bc && bc[1..] == [c];
    assert Join(bc, sep) == b + sep + c;
  }

  /** `s.replace(c, rep)` for a single-character pattern. */
  function ReplaceChar(s: string, c: char, rep: string): (r: string)
    ensures c !in rep ==> c !in r
    ensures c !in s ==> r == s
    ensures forall x :: x in r ==> x in s || x in rep
  {
    if |s| == 0 then ""
    else
      var tail := ReplaceChar(s[1..], c, rep);
      assert forall x :: x in s[1..] ==> x in s;
      if s[0] == c then rep + tail else [s[0]] + tail
  }

  /** `s.rstrip(c)`: `s` without its trailing run of `c`. */
  function RStripChar(s: string, c: char): (r: string)
    ensures |r| <= |s| && r == s[..|r|]
    ensures forall k :: |r| <= k < |s| ==> s[k] == c
    ensures r == [] || r[|r| - 1] != c
  {
    if |s| > 0 && s[|s| - 1] == c then RStripChar(s[..|s| - 1], c) else s
  }

  /** `rstrip` cannot reach into a prefix that ends in another character. */
  lemma RStripKeepsPrefix(s: string, p: string, c: char)
    requires StartsWith(s, p) && |p| >= 1 && p[|p| - 1] != c
    ensures StartsWith(RStripChar(s, c), p)
  {
    var r := RStripChar(s, c);
    assert s[|p| - 1] == p[|p| - 1];
    assert |p| <= |r|;
    assert r[..|p|] == s[..|p|];
  }

  /** A character in neither the pieces nor the separator is not in their
      join. */
  lemma {:induction false} JoinAvoids(parts: seq<string>, sep: string, c: char)
    requires c !in sep && forall i :: 0 <= i < |parts| ==> c !in parts[i]
    ensures c !in Join(parts, sep)
    decreases |parts|
  {
    if |parts| > 1 {
      assert forall i :: 0 <= i < |parts| - 1 ==> parts[1..][i] == parts[i + 1];
      JoinAvoids(parts[1..], sep, c);
    }
  }

  /** Python's `a <= b` on strings: lexicographic by code point, a proper
      prefix before any extension of it. */
  predicate LessEq(a: string, b: string) {
    if |a| == 0 then true
    else if |b| == 0 then false
    else if a[0] != b[0] then a[0] < b[0]
    else LessEq(a[1..], b[1..])
  }

  lemma {:induction false} LessEqTotal(a: string, b: string)
    ensures LessEq(a, b) || LessEq(b, a)
    decreases |a|
  {
    if |a| > 0 && |b| > 0 && a[0] == b[0] {
      LessEqTotal(a[1..], b[1..]);
    }
  }

  lemma {:induction false} LessEqTransitive(a: string, b: string, c: string)
    requires LessEq(a, b) && LessEq(b, c)
    ensures LessEq(a, c)
    decreases |a|
  {
    if |a| > 0 && |b| > 0 && |c| > 0 && a[0] == b[0] && b[0] == c[0] {
      LessEqTransitive(a[1..], b[1..], c[1..]);
    }
  }
}

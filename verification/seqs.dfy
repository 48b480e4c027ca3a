/** Order-preserving selection from a sequence: what a Python list
    comprehension with an `if` clause produces. */
module Seqs {

  /** `a` can be obtained from `b` by deleting elements, keeping the order
      of the rest. */
  predicate Subsequence<T(==)>(a: seq<T>, b: seq<T>)
    decreases |b|
  {
    if |a| == 0 then true
    else if |b| == 0 then false
    else if a[0] == b[0] then Subsequence(a[1..], b[1..])
    else Subsequence(a, b[1..])
  }

  /** A slice of a slice is a slice of the original. */
  lemma SliceOfSlice<T>(s: seq<T>, a: int, b: int, c: int, d: int)
    requires 0 <= a <= b <= |s| && 0 <= c <= d <= b - a
    ensures s[a..b][c..d] == s[a + c..a + d]
  {
    forall k | 0 <= k < d - c ensures s[a..b][c..d][k] == s[a + c..a + d][k] {
      assert s[a..b][c..d][k] == s[a..b][c + k];
      assert s[a..b][c + k] == s[a + c + k];
    }
  }

  /** A subsequence never has more elements than the sequence it is taken from. */
  lemma {:induction false} SubsequenceLength<T>(a: seq<T>, b: seq<T>)
    requires Subsequence(a, b)
    ensures |a| <= |b|
    decreases |b|
  {
    if |a| > 0 {
      if a[0] == b[0] {
        SubsequenceLength(a[1..], b[1..]);
      } else {
        SubsequenceLength(a, b[1..]);
      }
    }
  }

  /** `[x for x in s if p(x)]`: the elements that satisfy `p`, in order. */
  function Filter<T(==,!new)>(s: seq<T>, p: T -> bool): (r: seq<T>)
    ensures forall i :: 0 <= i < |r| ==> p(r[i])
    ensures forall i :: 0 <= i < |s| && p(s[i]) ==> s[i] in r
  {
    if |s| == 0 then []
    else
      var rest := Filter(s[1..], p);
      assert forall i :: 1 <= i < |s| ==> s[i] == s[1..][i - 1];
      if p(s[0]) then [s[0]] + rest else rest
  }

  /** Filtering keeps the order: the result is a subsequence. */
  lemma {:induction false} FilterSubsequence<T(!new)>(s: seq<T>, p: T -> bool)
    ensures Subsequence(Filter(s, p), s)
    decreases |s|
  {
    if |s| > 0 {
      var head := FilterCons(s, p);
      var rest := Filter(s[1..], p);
      FilterSubsequence(s[1..], p);
      if p(s[0]) {
        assert (head + rest)[1..] == rest;
      } else {
        SubsequenceDrop(rest, s);
      }
    }
  }

  /** Dropping the first element of a subsequence keeps it one. */
  lemma {:induction false} SubsequenceTail<T>(a: seq<T>, b: seq<T>)
    requires |a| >= 1 && Subsequence(a, b)
    ensures Subsequence(a[1..], b)
    decreases |b|, 1
  {
    if a[0] == b[0] {
      SubsequenceDrop(a[1..], b);
    } else {
      SubsequenceTail(a, b[1..]);
      SubsequenceDrop(a[1..], b);
    }
  }

  /** A subsequence of the tail is a subsequence of the whole. */
  lemma {:induction false} SubsequenceDrop<T>(a: seq<T>, b: seq<T>)
    requires |b| >= 1 && Subsequence(a, b[1..])
    ensures Subsequence(a, b)
    decreases |b|, 0
  {
    if |a| > 0 && a[0] == b[0] {
      SubsequenceTail(a, b[1..]);
    }
  }

  /** Every element of a subsequence is an element of the sequence it is
      taken from. */
  lemma {:induction false} SubsequenceMembers<T>(a: seq<T>, b: seq<T>)
    requires Subsequence(a, b)
    ensures forall x :: x in a ==> x in b
    decreases |b|
  {
    if |a| > 0 {
      if a[0] == b[0] {
        SubsequenceMembers(a[1..], b[1..]);
        assert forall x :: x in a ==> x == a[0] || x in a[1..];
      } else {
        SubsequenceMembers(a, b[1..]);
      }
    }
  }

  /** Filtering keeps every passing element as often as it occurs and
      drops every other one. */
  lemma {:induction false} FilterCounts<T(!new)>(s: seq<T>, p: T -> bool)
    ensures forall x :: multiset(Filter(s, p))[x] == if p(x) then multiset(s)[x] else 0
    decreases |s|
  {
    if |s| > 0 {
      var head := FilterCons(s, p);
      FilterCounts(s[1..], p);
      CountsStep(s, p, head, Filter(s[1..], p));
    }
  }

  lemma CountsStep<T>(s: seq<T>, p: T -> bool, head: seq<T>, rest: seq<T>)
    requires |s| >= 1 && head == (if p(s[0]) then [s[0]] else [])
    requires forall x :: multiset(rest)[x] == if p(x) then multiset(s[1..])[x] else 0
    ensures forall x :: multiset(head + rest)[x] == if p(x) then multiset(s)[x] else 0
  {
    assert s == [s[0]] + s[1..];
    forall x ensures multiset(head + rest)[x] == if p(x) then multiset(s)[x] else 0 {
      assert multiset(head + rest)[x] == multiset(head)[x] + multiset(rest)[x];
      assert multiset(s)[x] == multiset{s[0]}[x] + multiset(s[1..])[x];
    }
  }

  /** The elements of the filtered sequence are those of `s` that pass. */
  lemma FilterMembers<T(!new)>(s: seq<T>, p: T -> bool)
    ensures forall x :: x in Filter(s, p) <==> x in s && p(x)
  {
    FilterCounts(s, p);
    forall x ensures x in Filter(s, p) <==> x in s && p(x) {
      assert x in Filter(s, p) <==> multiset(Filter(s, p))[x] > 0;
      assert x in s <==> multiset(s)[x] > 0;
    }
  }

  /** Where an element that passes the test lands in the filtered
      sequence: what follows it there is the filter of what follows it in
      `s`. */
  lemma FilterAt<T(!new)>(s: seq<T>, p: T -> bool, i: nat) returns (j: nat)
    requires i < |s| && p(s[i])
    ensures j < |Filter(s, p)| && Filter(s, p)[j] == s[i] && Filter(s, p)[j + 1..] == Filter(s[i + 1..], p)
  {
    var pre := Filter(s[..i], p);
    var post := Filter(s[i..], p);
    assert s == s[..i] + s[i..];
    FilterAppend(s[..i], s[i..], p);
    var head := FilterCons(s[i..], p);
    assert s[i..][1..] == s[i + 1..];
    Shifted(pre, post, 0);
    j := |pre|;
  }

  /** Filtering distributes over concatenation. */
  lemma {:induction false} FilterAppend<T(!new)>(a: seq<T>, b: seq<T>, p: T -> bool)
    ensures Filter(a + b, p) == Filter(a, p) + Filter(b, p)
    decreases |a|
  {
    if |a| == 0 {
      assert a + b == b;
    } else {
      var ha := FilterCons(a, p);
      var hab := FilterCons(a + b, p);
      assert (a + b)[1..] == a[1..] + b;
      FilterAppend(a[1..], b, p);
    }
  }

  /** One step of `Filter`: the first element if it passes, then the
      filter of the rest. */
  lemma FilterCons<T(!new)>(s: seq<T>, p: T -> bool) returns (head: seq<T>)
    requires |s| >= 1
    ensures head == (if p(s[0]) then [s[0]] else []) && Filter(s, p) == head + Filter(s[1..], p)
  {
    head := if p(s[0]) then [s[0]] else [];
  }

  lemma Shifted<T>(head: seq<T>, rest: seq<T>, k: nat)
    requires k < |rest|
    ensures (head + rest)[|head| + k] == rest[k] && (head + rest)[|head| + k + 1..] == rest[k + 1..]
  {
  }

  /** Filtering keeps everything when everything satisfies `p`. */
  lemma {:induction false} FilterAll<T(!new)>(s: seq<T>, p: T -> bool)
    requires forall i :: 0 <= i < |s| ==> p(s[i])
    ensures Filter(s, p) == s
  {
    if |s| > 0 {
      assert forall i :: 0 <= i < |s| - 1 ==> s[1..][i] == s[i + 1];
      FilterAll(s[1..], p);
    }
  }

  /** Filtering keeps nothing exactly when no element satisfies `p`. */
  lemma FilterEmpty<T(!new)>(s: seq<T>, p: T -> bool)
    ensures Filter(s, p) == [] <==> forall i :: 0 <= i < |s| ==> !p(s[i])
  {
  }
}

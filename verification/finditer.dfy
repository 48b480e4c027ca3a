/** `re.finditer` for a pattern given as the function that tries it at one
    position: try the pattern at each position in turn, and after a match
    resume at its end. Both the tag scan and the two parameter scans are
    instances. */
module Finditer {
  import opened Wrappers

  /** One match: its span `[start, end)` and what its groups captured. */
  datatype Hit<T> = Hit(start: nat, end: nat, groups: T)

  /** A pattern tried at position `i` of a text of length `n` matches from
      `i` on, consumes at least one character and stays inside the text. */
  ghost predicate Anchored<T>(at: nat -> Option<Hit<T>>, n: nat) {
    forall i: nat :: at(i).Some? ==> at(i).value.start == i < at(i).value.end <= n
  }

  /** No match starts strictly inside another one. */
  ghost predicate Unnested<T>(at: nat -> Option<Hit<T>>) {
    forall i: nat, q: nat :: at(i).Some? && i < q < at(i).value.end ==> at(q).None?
  }

  /** The matches found from position `from` on: each is what the pattern
      yields at its start, and they are ascending and non-overlapping. */
  function FindAll<T>(at: nat -> Option<Hit<T>>, n: nat, from: nat): (r: seq<Hit<T>>)
    requires Anchored(at, n)
    ensures forall k :: 0 <= k < |r| ==> from <= r[k].start && at(r[k].start) == Some(r[k])
    ensures forall j, k :: 0 <= j < k < |r| ==> r[j].end <= r[k].start
    decreases n - from
  {
    if from >= n then []
    else
      match at(from)
      case Some(m) => [m] + FindAll(at, n, m.end)
      case None => FindAll(at, n, from + 1)
  }

  /** The search misses nothing: when no match starts inside another, every
      position at or after `from` where the pattern matches is the start of
      one of the matches found, at the returned index. */
  lemma {:induction false} FindAllComplete<T>(at: nat -> Option<Hit<T>>, n: nat, from: nat, q: nat) returns (k: nat)
    requires Anchored(at, n) && Unnested(at)
    requires from <= q && at(q).Some?
    ensures k < |FindAll(at, n, from)| && FindAll(at, n, from)[k].start == q
    decreases n - from
  {
    var here := at(from);
    if here.Some? {
      var m := here.value;
      FindAllTaken(at, n, from);
      if q == from {
        k := 0;
      } else if q < m.end {
        assert false;
      } else {
        var k' := FindAllComplete(at, n, m.end, q);
        k := k' + 1;
      }
    } else {
      FindAllSkipped(at, n, from, q);
      k := FindAllComplete(at, n, from + 1, q);
    }
  }

  lemma FindAllTaken<T>(at: nat -> Option<Hit<T>>, n: nat, from: nat)
    requires Anchored(at, n) && at(from).Some?
    ensures FindAll(at, n, from) == [at(from).value] + FindAll(at, n, at(from).value.end)
  {
  }

  lemma FindAllSkipped<T>(at: nat -> Option<Hit<T>>, n: nat, from: nat, q: nat)
    requires Anchored(at, n) && at(from).None? && from <= q && at(q).Some?
    ensures from < q && FindAll(at, n, from) == FindAll(at, n, from + 1)
  {
  }

  /** The search misses nothing even when matches can nest: every position
      at or after `from` where the pattern matches is the start of a found
      match or lies inside one, since the search resumes at a match's end. */
  lemma {:induction false} FindAllCovers<T>(at: nat -> Option<Hit<T>>, n: nat, from: nat, q: nat) returns (k: nat)
    requires Anchored(at, n)
    requires from <= q && at(q).Some?
    ensures k < |FindAll(at, n, from)| && FindAll(at, n, from)[k].start <= q < FindAll(at, n, from)[k].end
    decreases n - from
  {
    var here := at(from);
    if here.Some? {
      FindAllTaken(at, n, from);
      if q < here.value.end {
        k := 0;
      } else {
        var k' := FindAllCovers(at, n, here.value.end, q);
        k := k' + 1;
      }
    } else {
      FindAllSkipped(at, n, from, q);
      k := FindAllCovers(at, n, from + 1, q);
    }
  }

  /** A stretch where the pattern matches nowhere is passed over. */
  lemma {:induction false} FindAllSkip<T>(at: nat -> Option<Hit<T>>, n: nat, from: nat, until: nat)
    requires Anchored(at, n) && from <= until
    requires forall i: nat :: from <= i < until ==> at(i).None?
    ensures FindAll(at, n, from) == FindAll(at, n, until)
    decreases until - from
  {
    if from < until {
      if from < n {
        FindAllSkip(at, n, from + 1, until);
      } else {
        FindAllPast(at, n, from);
        FindAllPast(at, n, until);
      }
    }
  }

  lemma FindAllPast<T>(at: nat -> Option<Hit<T>>, n: nat, from: nat)
    requires Anchored(at, n) && from >= n
    ensures FindAll(at, n, from) == []
  {
  }

  /** The search over `[o, e)` when the pattern matches either exactly
      that span at `o` or nowhere in it, and not at `e`: the match, if any,
      then the search from `e + 1` (nothing when `e` is the end). */
  lemma StepOver<T>(at: nat -> Option<Hit<T>>, n: nat, o: nat, e: nat, h: Option<Hit<T>>) returns (hits: seq<Hit<T>>)
    requires Anchored(at, n) && o < e <= n
    requires h.Some? ==> at(o) == h && h.value.end == e
    requires h.None? ==> forall i: nat :: o <= i < e ==> at(i).None?
    requires e < n ==> at(e).None?
    ensures hits == if h.Some? then [h.value] else []
    ensures e == n ==> FindAll(at, n, o) == hits
    ensures e < n ==> FindAll(at, n, o) == hits + FindAll(at, n, e + 1)
  {
    if h.Some? {
      FindAllTaken(at, n, o);
      hits := [h.value];
    } else {
      FindAllSkip(at, n, o, e);
      hits := [];
    }
    if e == n {
      FindAllPast(at, n, e);
    } else {
      FindAllSkip(at, n, e, e + 1);
    }
  }

  /** A pattern that matches nowhere finds nothing. */
  lemma {:induction false} FindAllNowhere<T>(at: nat -> Option<Hit<T>>, n: nat, from: nat)
    requires Anchored(at, n) && forall i: nat :: at(i).None?
    ensures FindAll(at, n, from) == []
    decreases n - from
  {
    if from < n {
      FindAllNowhere(at, n, from + 1);
    }
  }

  /** Two patterns that match at the same positions with the same spans find
      the same spans, match for match. */
  lemma {:induction false} FindAllAgree<T, U>(at: nat -> Option<Hit<T>>, bt: nat -> Option<Hit<U>>, n: nat, from: nat)
    requires Anchored(at, n) && Anchored(bt, n)
    requires forall i: nat :: at(i).Some? == bt(i).Some?
    requires forall i: nat :: at(i).Some? ==> at(i).value.end == bt(i).value.end
    ensures |FindAll(at, n, from)| == |FindAll(bt, n, from)|
    ensures forall k :: 0 <= k < |FindAll(at, n, from)| ==>
      FindAll(at, n, from)[k].start == FindAll(bt, n, from)[k].start
    decreases n - from
  {
    if from < n {
      if at(from).Some? {
        FindAllAgree(at, bt, n, at(from).value.end);
      } else {
        FindAllAgree(at, bt, n, from + 1);
      }
    }
  }
}

/** The page hook of `src/mkdocs_sqlalchemy_plugin/plugin.py`: every tag of
    a Markdown page is replaced by the documentation its parameters ask for.
    The hook walks the tags from last to first, so that splicing one tag's
    text in does not move the tags still to be done; a tag whose rendering
    fails is left in the page as it was. */
module Plugin {
  import opened Wrappers
  import opened Text
  import opened Finditer
  import opened Utils
  import opened Schema
  import opened Markdown

  function Min(a: nat, b: nat): nat {
    if a <= b then a else b
  }

  /** `s[:start] + text + s[end:]`; Python's slices stop at the end of the
      text. */
  function Replace(s: string, start: nat, end: nat, text: string): (r: string)
    ensures start <= end <= |s| ==> r == s[..start] + text + s[end..]
    ensures start <= end <= |s| ==> |r| == |s| - (end - start) + |text|
  {
    s[..Min(start, |s|)] + text + s[Min(end, |s|)..]
  }

  // ---------------------------------------------------------------------
  // Splicing
  // ---------------------------------------------------------------------

  /** One replacement: the span `[start, end)` of the page and the text put
      in its place. */
  datatype Edit = Edit(start: nat, end: nat, text: string)

  /** The edits lie in order between `from` and `to`, none overlapping the
      next. */
  predicate Placed(edits: seq<Edit>, from: nat, to: nat) {
    && from <= to
    && (forall k :: 0 <= k < |edits| ==> from <= edits[k].start <= edits[k].end <= to)
    && (forall j, k :: 0 <= j < k < |edits| ==> edits[j].end <= edits[k].start)
  }

  /** The text from `from` to `to` with every edit made in one pass from left
      to right: the gaps between the edits are copied from `s` and each span
      is replaced by its text. */
  function Spliced(s: string, edits: seq<Edit>, from: nat, to: nat): string
    requires Placed(edits, from, to) && to <= |s|
    decreases |edits|
  {
    if edits == [] then s[from..to]
    else
      var e := edits[0];
      assert Placed(edits[1..], e.end, to) by {
        assert forall k :: 0 <= k < |edits| - 1 ==> edits[1..][k] == edits[k + 1];
      }
      s[from..e.start] + e.text + Spliced(s, edits[1..], e.end, to)
  }

  /** The reverse loop of the hook: the last edit first, down to the
      first. */
  function ApplyReversed(s: string, edits: seq<Edit>): string
    decreases |edits|
  {
    if edits == [] then s
    else
      var last := edits[|edits| - 1];
      ApplyReversed(Replace(s, last.start, last.end, last.text), edits[..|edits| - 1])
  }

  /** Processing the edits from last to first is the one left-to-right
      splice: no edit moves a span that is still to be replaced. */
  lemma {:induction false} ApplyReversedIsSpliced(s: string, edits: seq<Edit>)
    requires Placed(edits, 0, |s|)
    ensures ApplyReversed(s, edits) == Spliced(s, edits, 0, |s|)
    decreases |edits|
  {
    if edits != [] {
      var init := edits[..|edits| - 1];
      var last := edits[|edits| - 1];
      var t := Replace(s, last.start, last.end, last.text);
      PlacedInit(edits, 0, |s|);
      ReplaceParts(s, last, t);
      PlacedWiden(init, 0, last.start, |t|);
      calc {
        ApplyReversed(s, edits);
        ApplyReversed(t, init);
        { ApplyReversedIsSpliced(t, init); }
        Spliced(t, init, 0, |t|);
        { SplicedExtend(t, init, 0, last.start, |t|); }
        Spliced(t, init, 0, last.start) + t[last.start..];
        { SplicedAgree(t, s, init, 0, last.start); }
        Spliced(s, init, 0, last.start) + last.text + s[last.end..];
        { SplicedSnoc(s, init, last, 0, |s|); assert init + [last] == edits; }
        Spliced(s, edits, 0, |s|);
      }
    }
  }

  /** The text after one replacement: the prefix before the span is kept
      and the span's text is followed by the rest. */
  lemma ReplaceParts(s: string, e: Edit, t: string)
    requires e.start <= e.end <= |s| && t == Replace(s, e.start, e.end, e.text)
    ensures e.start <= |t| && t[..e.start] == s[..e.start]
    ensures t[e.start..] == e.text + s[e.end..]
  {
  }

  /** Without their last edit, placed edits end where the last one starts. */
  lemma PlacedInit(edits: seq<Edit>, from: nat, to: nat)
    requires Placed(edits, from, to) && |edits| >= 1
    ensures Placed(edits[..|edits| - 1], from, edits[|edits| - 1].start)
  {
    var init := edits[..|edits| - 1];
    forall k | 0 <= k < |init| ensures init[k].end <= edits[|edits| - 1].start {
      assert init[k] == edits[k];
    }
  }

  lemma PlacedWiden(edits: seq<Edit>, from: nat, to: nat, to': nat)
    requires Placed(edits, from, to) && to <= to'
    ensures Placed(edits, from, to')
  {
  }

  /** The last edit of a splice comes after the splice of the others. */
  lemma {:induction false} SplicedSnoc(s: string, init: seq<Edit>, last: Edit, from: nat, to: nat)
    requires Placed(init, from, last.start) && last.start <= last.end <= to <= |s|
    ensures Placed(init + [last], from, to)
    ensures Spliced(s, init + [last], from, to) == Spliced(s, init, from, last.start) + last.text + s[last.end..to]
    decreases |init|
  {
    PlacedSnoc(init, last, from, to);
    var edits := init + [last];
    if init == [] {
      assert edits == [last];
    } else {
      var e := init[0];
      var tail := init[1..];
      assert edits[0] == e && edits[1..] == tail + [last];
      assert Placed(tail, e.end, last.start) by {
        assert forall k :: 0 <= k < |init| - 1 ==> tail[k] == init[k + 1];
      }
      calc {
        Spliced(s, edits, from, to);
        s[from..e.start] + e.text + Spliced(s, tail + [last], e.end, to);
        { SplicedSnoc(s, tail, last, e.end, to); }
        s[from..e.start] + e.text + (Spliced(s, tail, e.end, last.start) + last.text + s[last.end..to]);
        (s[from..e.start] + e.text + Spliced(s, tail, e.end, last.start)) + last.text + s[last.end..to];
        Spliced(s, init, from, last.start) + last.text + s[last.end..to];
      }
    }
  }

  /** A splice up to `m2` is the splice up to `m1` followed by the text
      between them, when no edit reaches past `m1`. */
  lemma {:induction false} SplicedExtend(s: string, edits: seq<Edit>, from: nat, m1: nat, m2: nat)
    requires Placed(edits, from, m1) && m1 <= m2 <= |s|
    ensures Placed(edits, from, m2)
    ensures Spliced(s, edits, from, m2) == Spliced(s, edits, from, m1) + s[m1..m2]
    decreases |edits|
  {
    if edits == [] {
      assert s[from..m2] == s[from..m1] + s[m1..m2];
    } else {
      var e := edits[0];
      assert Placed(edits[1..], e.end, m1) by {
        assert forall k :: 0 <= k < |edits| - 1 ==> edits[1..][k] == edits[k + 1];
      }
      SplicedExtend(s, edits[1..], e.end, m1, m2);
    }
  }

  /** A splice up to `to` reads nothing of the text beyond `to`. */
  lemma {:induction false} SplicedAgree(s: string, t: string, edits: seq<Edit>, from: nat, to: nat)
    requires Placed(edits, from, to) && to <= |s| && to <= |t| && s[..to] == t[..to]
    ensures Spliced(s, edits, from, to) == Spliced(t, edits, from, to)
    decreases |edits|
  {
    if edits == [] {
      assert s[from..to] == s[..to][from..] == t[..to][from..] == t[from..to];
    } else {
      var e := edits[0];
      assert Placed(edits[1..], e.end, to) by {
        assert forall k :: 0 <= k < |edits| - 1 ==> edits[1..][k] == edits[k + 1];
      }
      assert s[from..e.start] == s[..to][from..e.start] == t[..to][from..e.start] == t[from..e.start];
      SplicedAgree(s, t, edits[1..], e.end, to);
    }
  }

  // ---------------------------------------------------------------------
  // The page hook
  // ---------------------------------------------------------------------

  /** The body of the loop for one tag: its parameters parsed and the
      content generated; an error stands for the exception the loop
      catches. */
  function Render(ctx: Context, m: TagMatch): (r: Result<string>)
    ensures r.Err? <==> var params := ParseTagParameters(m.groups);
      "table" in params && PyStr(params["table"]) !in Names(ctx.metadata)
  {
    GenerateContentFromParams(ctx, ParseTagParameters(m.groups))
  }

  /** The edits the loop makes: one for each tag that renders, in page
      order. */
  function Edits(ctx: Context, ms: seq<TagMatch>): (r: seq<Edit>)
    ensures |r| <= |ms|
    decreases |ms|
  {
    if ms == [] then []
    else
      var m := ms[|ms| - 1];
      var rest := Edits(ctx, ms[..|ms| - 1]);
      match Render(ctx, m)
      case Ok(text) => rest + [Edit(m.start, m.end, text)]
      case Err(_) => rest
  }

  /** The loop over `reversed(matches)`: each tag that renders is replaced
      in the page; one that fails is skipped. */
  function Substitute(ctx: Context, page: string, ms: seq<TagMatch>): string
    decreases |ms|
  {
    if ms == [] then page
    else
      var m := ms[|ms| - 1];
      var next := match Render(ctx, m)
        case Ok(text) => Replace(page, m.start, m.end, text)
        case Err(_) => page;
      Substitute(ctx, next, ms[..|ms| - 1])
  }

  /** The loop makes exactly the edits of the tags that render, last first. */
  lemma {:induction false} SubstituteApplies(ctx: Context, page: string, ms: seq<TagMatch>)
    ensures Substitute(ctx, page, ms) == ApplyReversed(page, Edits(ctx, ms))
    decreases |ms|
  {
    if ms != [] {
      var m := ms[|ms| - 1];
      var init := ms[..|ms| - 1];
      match Render(ctx, m)
      case Ok(text) =>
        var edits := Edits(ctx, init) + [Edit(m.start, m.end, text)];
        assert edits[..|edits| - 1] == Edits(ctx, init);
        SubstituteApplies(ctx, Replace(page, m.start, m.end, text), init);
      case Err(_) =>
        SubstituteApplies(ctx, page, init);
    }
  }

  /** Matches in page order, each inside a text of length `n`, none
      overlapping the next. */
  predicate InOrder(ms: seq<TagMatch>, n: nat) {
    && (forall k :: 0 <= k < |ms| ==> ms[k].start <= ms[k].end <= n)
    && (forall j, k :: 0 <= j < k < |ms| ==> ms[j].end <= ms[k].start)
  }

  /** The edits of matches in page order are placed. */
  lemma {:induction false} EditsPlaced(ctx: Context, ms: seq<TagMatch>, n: nat)
    requires InOrder(ms, n)
    ensures Placed(Edits(ctx, ms), 0, n)
    decreases |ms|
  {
    if ms != [] {
      var m := ms[|ms| - 1];
      var init := ms[..|ms| - 1];
      assert InOrder(init, m.start) by {
        forall k | 0 <= k < |init| ensures init[k].end <= m.start {
          assert init[k] == ms[k];
        }
      }
      EditsPlaced(ctx, init, m.start);
      var rest := Edits(ctx, init);
      match Render(ctx, m)
      case Ok(text) =>
        PlacedSnoc(rest, Edit(m.start, m.end, text), 0, n);
      case Err(_) =>
        PlacedWiden(rest, 0, m.start, n);
    }
  }

  /** An edit after the placed ones, and inside the text, keeps them
      placed. */
  lemma PlacedSnoc(edits: seq<Edit>, e: Edit, from: nat, to: nat)
    requires Placed(edits, from, e.start) && e.start <= e.end <= to
    ensures Placed(edits + [e], from, to)
  {
    var r := edits + [e];
    assert forall k :: 0 <= k < |edits| ==> r[k] == edits[k];
  }

  /** The tags the hook finds: the greedy spelling, as `plugin.py` writes
      it. */
  function PageTags(markdown: string): (r: seq<TagMatch>)
    ensures InOrder(r, |markdown|)
    ensures r == [] <==> forall i: nat :: MatchAt(markdown, i, GreedyParams).None?
  {
    var r := MatchTagRegex(markdown, GreedyParams);
    NoTagsFound(markdown);
    r
  }

  /** The scan finds nothing exactly when the pattern matches nowhere. */
  lemma NoTagsFound(s: string)
    ensures Scan(s, 0, GreedyParams) == [] <==> forall i: nat :: MatchAt(s, i, GreedyParams).None?
  {
    var r := Scan(s, 0, GreedyParams);
    if r != [] {
      assert MatchAt(s, r[0].start, GreedyParams).Some?;
    } else {
      forall i: nat ensures MatchAt(s, i, GreedyParams).None? {
        if MatchAt(s, i, GreedyParams).Some? {
          var k := ScanFindsEveryTag(s, 0, GreedyParams, i);
        }
      }
    }
  }

  /** `on_page_markdown`: nothing without a context or without a tag on the
      page; otherwise the page with each tag that renders replaced by its
      text in one left-to-right pass, and every other character kept. */
  function OnPageMarkdown(ctx: Option<Context>, markdown: string): (r: Option<string>)
    ensures ctx.None? ==> r.None?
    ensures ctx.Some? ==> (r.None? <==> forall i: nat :: MatchAt(markdown, i, GreedyParams).None?)
    ensures r.Some? ==> Placed(Edits(ctx.value, PageTags(markdown)), 0, |markdown|)
    ensures r.Some? ==> r.value == Spliced(markdown, Edits(ctx.value, PageTags(markdown)), 0, |markdown|)
  {
    if ctx.None? then None
    else
      var ms := PageTags(markdown);
      if ms == [] then None
      else
        var edits := Edits(ctx.value, ms);
        EditsPlaced(ctx.value, ms, |markdown|);
        SubstituteApplies(ctx.value, markdown, ms);
        ApplyReversedIsSpliced(markdown, edits);
        Some(Substitute(ctx.value, markdown, ms))
  }

  /** A splice without edits is the text itself. */
  lemma SplicedNothing(s: string)
    ensures Spliced(s, [], 0, |s|) == s
  {
  }

  /** When no tag on the page renders, the hook still returns the page, as
      it was, rather than nothing. */
  lemma NothingRenders(ctx: Context, markdown: string)
    requires PageTags(markdown) != []
    requires forall k :: 0 <= k < |PageTags(markdown)| ==> Render(ctx, PageTags(markdown)[k]).Err?
    ensures OnPageMarkdown(Some(ctx), markdown) == Some(markdown)
  {
    var ms := PageTags(markdown);
    NoEdits(ctx, ms);
    SplicedNothing(markdown);
  }

  lemma {:induction false} NoEdits(ctx: Context, ms: seq<TagMatch>)
    requires forall k :: 0 <= k < |ms| ==> Render(ctx, ms[k]).Err?
    ensures Edits(ctx, ms) == []
    decreases |ms|
  {
    if ms != [] {
      var init := ms[..|ms| - 1];
      assert forall k :: 0 <= k < |init| ==> init[k] == ms[k];
      NoEdits(ctx, init);
    }
  }
}

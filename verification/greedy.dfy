/** `mise_en_page_glouton`: first fit.  Each word goes on the current line
    if the line, a space and the word still fit in `L` columns, and starts a
    new line otherwise. */
module Greedy {
  import opened Layouts

  /** A line ends only where its first-fit successor test fails: the next
      line's first word does not fit after it. */
  predicate BreaksOnlyWhenFull(p: Layout, L: int) {
    forall k :: 0 <= k < |p| - 1 && |p[k + 1]| > 0 ==> Width(p[k]) + 1 + p[k + 1][0] > L
  }

  /** The characterisation of a first-fit layout of `w`. */
  predicate IsFirstFit(p: Layout, w: seq<nat>, L: int) {
    IsPartition(p, w) && MultiWordFit(p, L) && BreaksOnlyWhenFull(p, L)
  }

  /** The line-building loop of `mise_en_page_glouton` (the text of each line
      is represented by its words' lengths; its `len` is `Width`). */
  method FirstFit(w: seq<nat>, L: int) returns (lines: Layout)
    requires |w| > 0
    ensures IsFirstFit(lines, w, L)
  {
    lines := [[w[0]]];
    assert Flatten(lines) == [w[0]] + Flatten([]);
    assert w[..1] == [w[0]];
    var i := 1;
    while i < |w|
      invariant 1 <= i <= |w|
      invariant |lines| > 0
      invariant IsFirstFit(lines, w[..i], L)
    {
      var n := |lines| - 1;
      var last := lines[n];
      assert lines == lines[..n] + [last];
      FlattenSnoc(lines[..n], last);
      assert w[..i + 1] == w[..i] + [w[i]];
      if Width(last) + w[i] + 1 <= L {
        var grown := last + [w[i]];
        WidthSnoc(last, w[i]);
        FlattenSnoc(lines[..n], grown);
        assert grown[0] == last[0];
        lines := lines[..n] + [grown];
      } else {
        FlattenSnoc(lines, [w[i]]);
        lines := lines + [[w[i]]];
      }
      i := i + 1;
    }
    assert w[..i] == w;
  }

  /** `mise_en_page_glouton`: the first-fit layout and its score, or nothing
      when `evaluation` finds a line wider than `L`.  With no word at all the
      program fails on reading the first word.  The rendered text is
      `Render.Conversion` of the lines' texts. */
  method Glouton(w: seq<nat>, L: int) returns (r: Result<Option<(Layout, nat)>>)
    ensures r.Failure? <==> |w| == 0
    ensures r.Failure? ==> r.error == EmptyText
    ensures r.Success? ==> (r.value.None? <==> exists k :: 0 <= k < |w| && w[k] > L)
    ensures r.Success? && r.value.Some? ==>
      IsFirstFit(r.value.value.0, w, L) && AllFit(r.value.value.0, L)
      && r.value.value.1 == Cost(r.value.value.0, L)
  {
    if |w| == 0 {
      return Failure(EmptyText);
    }
    var lines := FirstFit(w, L);
    var s := Evaluation(lines, L);
    OverflowIsLongWord(lines, w, L);
    if s != Infinite {
      r := Success(Some((lines, s.value)));
    } else {
      r := Success(None);
    }
  }

  /** First fit is determined by its characterisation: two layouts that both
      satisfy it are equal. */
  lemma {:induction false} FirstFitUnique(p: Layout, q: Layout, w: seq<nat>, L: int)
    requires IsFirstFit(p, w, L) && IsFirstFit(q, w, L)
    ensures p == q
    decreases |w|
  {
    if |w| == 0 {
      NoLinesForNoWords(p);
      NoLinesForNoWords(q);
    } else {
      NoWordsWithoutLines(p, w);
      NoWordsWithoutLines(q, w);
      FirstLineMaximal(p, q, w, L);
      FirstLineMaximal(q, p, w, L);
      PartitionTail(p, w);
      PartitionTail(q, w);
      assert p[0] == q[0];
      var rest := w[|p[0]|..];
      assert IsFirstFit(p[1..], rest, L);
      assert IsFirstFit(q[1..], rest, L);
      FirstFitUnique(p[1..], q[1..], rest, L);
      assert p == [p[0]] + p[1..];
      assert q == [q[0]] + q[1..];
    }
  }

  lemma NoWordsWithoutLines(p: Layout, w: seq<nat>)
    requires IsPartition(p, w) && |w| > 0
    ensures |p| > 0
  {
  }

  /** A first-fit first line is at least as long as the first line of any
      layout whose multi-word lines fit: the word after a shorter line would
      have fitted on it. */
  lemma FirstLineMaximal(p: Layout, q: Layout, w: seq<nat>, L: int)
    requires IsFirstFit(p, w, L) && IsPartition(q, w) && MultiWordFit(q, L)
    requires |p| > 0 && |q| > 0
    ensures |q[0]| <= |p[0]|
  {
    PartitionTail(p, w);
    PartitionTail(q, w);
    var n := |p[0]|;
    if n < |q[0]| {
      var rest := w[n..];
      assert |rest| > 0;
      assert Flatten(p[1..]) == rest;
      assert |p[1..]| > 0;
      PartitionTail(p[1..], rest);
      assert p[1][0] == w[n];
      assert q[0][..n + 1] == p[0] + [w[n]];
      PrefixWidth(q[0], n + 1);
      WidthSnoc(p[0], w[n]);
      assert false;
    }
  }
}

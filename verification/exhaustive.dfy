/** `rec` and `mise_en_page_recursif`: exhaustive search.

    The search takes the words from the last one backwards.  Its state
    `current` is the layout built so far, read back to front: `current[0]`
    holds the last line, and each row lists its words last first.  The
    last row of `current` is the open line, which may still receive words in
    front of those it holds. */
module Exhaustive {
  import opened Layouts

  /** The score and the rows of the best branch. */
  datatype Branch = Branch(score: nat, rows: Layout)

  /** `rows` is a way to finish the search state `cur` with the remaining
      words `t`: the closed rows are kept, the open row may grow, new rows
      are non-empty, and the words read in reverse are those of `cur`
      followed by `t` backwards. */
  ghost predicate Extends(rows: Layout, t: seq<nat>, cur: Layout)
    requires |cur| > 0
  {
    var o := |cur| - 1;
    |rows| >= |cur| && rows[..o] == cur[..o] && cur[o] <= rows[o]
    && (forall k :: |cur| <= k < |rows| ==> |rows[k]| > 0)
    && Flatten(rows) == Flatten(cur) + Reverse(t)
  }

  /** `rec(t, L, current)`.  The last remaining word either starts a new row
      or, if the open row plus a space plus the word fits in `L`, joins the
      open row; the branch with the lower score wins and a tie goes to the
      new row.  The list `t` is immutable here, so it is trivially the same
      on return, as the program restores it. */
  function Rec(t: seq<nat>, L: int, cur: Layout): (r: Branch)
    requires |cur| > 0
    ensures Extends(r.rows, t, cur)
    ensures r.score == Cost(r.rows, L)
    ensures MultiWordFit(cur, L) ==> MultiWordFit(r.rows, L)
    decreases |t|
  {
    if |t| == 0 then
      Branch(Cost(cur, L), cur)
    else
      var m := t[|t| - 1];
      var rest := t[..|t| - 1];
      var o := |cur| - 1;
      var open := cur[o];
      var r1 := Rec(rest, L, cur + [[m]]);
      ExtendsNewRow(r1.rows, t, cur);
      if Sum(open) + m + |open| <= L then
        var joined := cur[..o] + [open + [m]];
        var r2 := Rec(rest, L, joined);
        ExtendsJoin(r2.rows, t, cur);
        JoinKeepsFit(cur, m, L);
        if r1.score > r2.score then r2 else r1
      else
        r1
  }

  /** The search as `mise_en_page_recursif` starts it: the last word alone
      on the last line. */
  function Search(w: seq<nat>, L: int): Branch
    requires |w| > 0
  {
    Rec(w[..|w| - 1], L, [[w[|w| - 1]]])
  }

  /** `mise_en_page_recursif`: runs the search and rebuilds the lines in
      reading order, taking from `w` as many words as each row holds, the
      last row first.  With no word at all the program fails on taking the
      last word. */
  method Recursif(w: seq<nat>, L: int) returns (r: Result<(Layout, nat)>)
    ensures r.Failure? <==> |w| == 0
    ensures r.Failure? ==> r.error == EmptyText
    ensures r.Success? ==> r.value == (Forward(Search(w, L).rows), Search(w, L).score)
    ensures r.Success? ==> IsPartition(r.value.0, w) && MultiWordFit(r.value.0, L)
    ensures r.Success? ==> r.value.1 == Cost(r.value.0, L)
    ensures r.Success? ==>
      forall p :: IsPartition(p, w) && MultiWordFit(p, L) ==> r.value.1 <= Cost(p, L)
  {
    if |w| == 0 {
      return Failure(EmptyText);
    }
    var lines, s := Rebuild(w, L);
    r := Success((lines, s));
  }

  /** The search and the rebuild loop for a non-empty text. */
  method Rebuild(w: seq<nat>, L: int) returns (lines: Layout, s: nat)
    requires |w| > 0
    ensures lines == Forward(Search(w, L).rows) && s == Search(w, L).score
    ensures IsPartition(lines, w) && MultiWordFit(lines, L)
    ensures s == Cost(lines, L)
    ensures forall p :: IsPartition(p, w) && MultiWordFit(p, L) ==> s <= Cost(p, L)
  {
    var b := Search(w, L);
    SearchSound(w, L);
    var rows := b.rows;
    s := b.score;
    lines := [];
    var i := 0;
    var k := |rows|;
    while k > 0
      invariant 0 <= k <= |rows|
      invariant lines == Forward(rows[k..])
      invariant i == |Flatten(lines)|
    {
      RebuildStep(rows, w, k);
      var count := |rows[k - 1]|;
      FlattenSnoc(lines, w[i..i + count]);
      lines := lines + [w[i..i + count]];
      i := i + count;
      k := k - 1;
    }
    assert rows[0..] == rows;
    forall p | IsPartition(p, w) && MultiWordFit(p, L)
      ensures s <= Cost(p, L)
    {
      SearchOptimal(w, L, p);
    }
  }

  // ---------------------------------------------------------------------
  // The search explores every completion

  lemma ExtendsNewRow(rows: Layout, t: seq<nat>, cur: Layout)
    requires |cur| > 0 && |t| > 0
    requires Extends(rows, t[..|t| - 1], cur + [[t[|t| - 1]]])
    ensures Extends(rows, t, cur)
  {
    var m := t[|t| - 1];
    var o := |cur| - 1;
    assert (cur + [[m]])[..|cur|] == cur;
    assert rows[..|cur|][..o] == rows[..o];
    assert rows[o] == rows[..|cur|][o];
    FlattenSnoc(cur, [m]);
    assert [m] <= rows[|cur|];
  }

  lemma ExtendsJoin(rows: Layout, t: seq<nat>, cur: Layout)
    requires |cur| > 0 && |t| > 0
    requires Extends(rows, t[..|t| - 1], cur[..|cur| - 1] + [cur[|cur| - 1] + [t[|t| - 1]]])
    ensures Extends(rows, t, cur)
  {
    var m := t[|t| - 1];
    var o := |cur| - 1;
    var joined := cur[..o] + [cur[o] + [m]];
    assert joined[..o] == cur[..o];
    assert cur == cur[..o] + [cur[o]];
    FlattenSnoc(cur[..o], cur[o]);
    FlattenSnoc(cur[..o], cur[o] + [m]);
  }

  lemma JoinKeepsFit(cur: Layout, m: nat, L: int)
    requires |cur| > 0
    requires Sum(cur[|cur| - 1]) + m + |cur[|cur| - 1]| <= L
    ensures MultiWordFit(cur, L) ==> MultiWordFit(cur[..|cur| - 1] + [cur[|cur| - 1] + [m]], L)
  {
    SumAppend(cur[|cur| - 1], [m]);
    assert Sum([m]) == m + Sum([]);
  }

  /** Splits the words of a completion around the open row. */
  lemma {:induction false} FlattenAround(rows: Layout, o: nat)
    requires o < |rows|
    ensures Flatten(rows) == Flatten(rows[..o]) + rows[o] + Flatten(rows[o + 1..])
    decreases o
  {
    if o == 0 {
      assert rows[..0] == [];
    } else {
      var r := rows[1..];
      FlattenAround(r, o - 1);
      assert r[..o - 1] == rows[..o][1..];
      assert r[o - 1] == rows[o];
      assert r[o..] == rows[o + 1..];
      assert rows[..o][0] == rows[0];
      var a := Flatten(r[..o - 1]);
      assert Flatten(rows[..o]) == rows[0] + a;
      assert Flatten(rows) == rows[0] + (a + rows[o] + Flatten(rows[o + 1..]));
    }
  }

  /** A completion of a state with words left either put the last one in a
      new row or on the open row. */
  lemma ExtendsSplit(rows: Layout, t: seq<nat>, cur: Layout)
    requires |cur| > 0 && |t| > 0 && Extends(rows, t, cur)
    ensures var o := |cur| - 1;
      if |rows[o]| > |cur[o]| then
        Extends(rows, t[..|t| - 1], cur[..o] + [cur[o] + [t[|t| - 1]]])
      else
        Extends(rows, t[..|t| - 1], cur + [[t[|t| - 1]]])
  {
    var o := |cur| - 1;
    OpenRowWords(rows, t, cur);
    if |rows[o]| > |cur[o]| {
      SplitJoin(rows, t, cur);
    } else {
      SplitNew(rows, t, cur);
    }
  }

  /** Past the closed rows, a completion holds the open row's words, then
      the remaining words backwards. */
  lemma OpenRowWords(rows: Layout, t: seq<nat>, cur: Layout)
    requires |cur| > 0 && |t| > 0 && Extends(rows, t, cur)
    ensures var o := |cur| - 1;
      rows[o] + Flatten(rows[o + 1..]) == cur[o] + ([t[|t| - 1]] + Reverse(t[..|t| - 1]))
      && Flatten(cur) == Flatten(cur[..o]) + cur[o]
  {
    var m := t[|t| - 1];
    var rest := t[..|t| - 1];
    var o := |cur| - 1;
    var x := rows[o];
    var tail := Flatten(rows[o + 1..]);
    var back := [m] + Reverse(rest);
    assert Reverse(t) == back;
    FlattenAround(rows, o);
    FlattenLast(cur);
    var p := Flatten(cur[..o]);
    assert Flatten(rows[..o]) == p;
    var f := Flatten(rows);
    DropFront(f, p, x, tail);
    DropFront(f, p, cur[o], back);
  }

  lemma SplitJoin(rows: Layout, t: seq<nat>, cur: Layout)
    requires |cur| > 0 && |t| > 0 && Extends(rows, t, cur)
    requires var o := |cur| - 1;
      rows[o] + Flatten(rows[o + 1..]) == cur[o] + ([t[|t| - 1]] + Reverse(t[..|t| - 1]))
      && Flatten(cur) == Flatten(cur[..o]) + cur[o]
    requires |rows[|cur| - 1]| > |cur[|cur| - 1]|
    ensures Extends(rows, t[..|t| - 1], cur[..|cur| - 1] + [cur[|cur| - 1] + [t[|t| - 1]]])
  {
    var m := t[|t| - 1];
    var rest := t[..|t| - 1];
    var o := |cur| - 1;
    var c := cur[o];
    var x := rows[o];
    assert x == c + x[|c|..];
    var f := x + Flatten(rows[o + 1..]);
    assert f[|c|] == x[|c|];
    assert x[|c|] == m;
    assert c + [m] <= x;
    var joined := cur[..o] + [c + [m]];
    assert joined[..o] == cur[..o];
    FlattenSnoc(cur[..o], c + [m]);
    assert Reverse(t) == [m] + Reverse(rest);
  }

  lemma SplitNew(rows: Layout, t: seq<nat>, cur: Layout)
    requires |cur| > 0 && |t| > 0 && Extends(rows, t, cur)
    requires var o := |cur| - 1;
      rows[o] + Flatten(rows[o + 1..]) == cur[o] + ([t[|t| - 1]] + Reverse(t[..|t| - 1]))
      && Flatten(cur) == Flatten(cur[..o]) + cur[o]
    requires |rows[|cur| - 1]| <= |cur[|cur| - 1]|
    ensures Extends(rows, t[..|t| - 1], cur + [[t[|t| - 1]]])
  {
    var m := t[|t| - 1];
    var rest := t[..|t| - 1];
    var o := |cur| - 1;
    var c := cur[o];
    var x := rows[o];
    assert x == c;
    var tail := Flatten(rows[o + 1..]);
    assert (x + tail)[|c|..] == tail;
    assert (c + ([m] + Reverse(rest)))[|c|..] == [m] + Reverse(rest);
    assert tail == [m] + Reverse(rest);
    assert |rows[o + 1..]| > 0;
    assert tail == rows[o + 1..][0] + Flatten(rows[o + 1..][1..]);
    assert rows[o + 1..][0] == rows[o + 1];
    assert |rows[o + 1]| > 0;
    assert tail[0] == rows[o + 1][0];
    assert rows[o + 1][0] == m;
    assert rows[..|cur|] == cur;
    FlattenSnoc(cur, [m]);
    assert Reverse(t) == [m] + Reverse(rest);
  }

  lemma ExtendsNothing(rows: Layout, cur: Layout)
    requires |cur| > 0 && Extends(rows, [], cur)
    ensures rows == cur
  {
    var o := |cur| - 1;
    FlattenAround(rows, o);
    assert cur == cur[..o] + [cur[o]];
    FlattenSnoc(cur[..o], cur[o]);
    var n := |Flatten(rows[..o])|;
    assert Flatten(rows)[n..] == rows[o] + Flatten(rows[o + 1..]);
    assert Flatten(rows)[n..] == cur[o];
    assert rows[o] == cur[o];
    var after := rows[o + 1..];
    assert Flatten(after) == [];
    assert rows == rows[..o] + [rows[o]] + after;
  }

  /** The search's score is at most the cost of every completion of its
      state whose multi-word rows fit. */
  lemma {:induction false} RecOptimal(t: seq<nat>, L: int, cur: Layout, rows: Layout)
    requires |cur| > 0 && |cur[|cur| - 1]| > 0
    requires Extends(rows, t, cur) && MultiWordFit(rows, L)
    ensures Rec(t, L, cur).score <= Cost(rows, L)
    decreases |t|
  {
    if |t| == 0 {
      ExtendsNothing(rows, cur);
    } else {
      var m := t[|t| - 1];
      var rest := t[..|t| - 1];
      var o := |cur| - 1;
      var open := cur[o];
      ExtendsSplit(rows, t, cur);
      if |rows[o]| > |open| {
        var joined := cur[..o] + [open + [m]];
        assert rows[o][..|open| + 1] == open + [m];
        PrefixWidth(rows[o], |open| + 1);
        SumAppend(open, [m]);
        assert Sum([m]) == m + Sum([]);
        assert Sum(open) + m + |open| <= L;
        RecOptimal(rest, L, joined, rows);
      } else {
        RecOptimal(rest, L, cur + [[m]], rows);
      }
    }
  }

  // ---------------------------------------------------------------------
  // From the search state to layouts of the input

  /** The words of the last rows, read forward, come first. */
  lemma ForwardPrefix(rows: Layout, k: nat)
    requires k <= |rows|
    ensures Flatten(Forward(rows)) == Flatten(Forward(rows[k..])) + Flatten(Forward(rows[..k]))
  {
    assert rows == rows[..k] + rows[k..];
    ForwardAppend(rows[..k], rows[k..]);
    FlattenAppend(Forward(rows[k..]), Forward(rows[..k]));
  }

  lemma ForwardStep(rows: Layout, k: nat)
    requires 0 < k <= |rows|
    ensures Forward(rows[k - 1..]) == Forward(rows[k..]) + [Reverse(rows[k - 1])]
  {
    var tail := rows[k - 1..];
    assert tail[1..] == rows[k..];
    assert tail[0] == rows[k - 1];
  }

  /** The rebuild loop takes, for row `k - 1`, the next `|rows[k - 1]|`
      words of `w`: they are that row read forward. */
  lemma RebuildStep(rows: Layout, w: seq<nat>, k: nat)
    requires 0 < k <= |rows| && Flatten(Forward(rows)) == w
    ensures var i := |Flatten(Forward(rows[k..]))|;
      i + |rows[k - 1]| <= |w| && w[i..i + |rows[k - 1]|] == Reverse(rows[k - 1])
    ensures Forward(rows[k - 1..]) == Forward(rows[k..]) + [Reverse(rows[k - 1])]
  {
    var x := Reverse(rows[k - 1]);
    var a := Flatten(Forward(rows[k..]));
    ForwardStep(rows, k);
    FlattenSnoc(Forward(rows[k..]), x);
    ForwardPrefix(rows, k - 1);
    assert w == (a + x) + Flatten(Forward(rows[..k - 1]));
    assert w[|a|..|a| + |x|] == x;
  }

  /** Read forward, the rows of the search are a layout of `w` whose
      multi-word lines fit, and the score is its cost. */
  lemma SearchSound(w: seq<nat>, L: int)
    requires |w| > 0
    ensures IsPartition(Forward(Search(w, L).rows), w)
    ensures MultiWordFit(Forward(Search(w, L).rows), L)
    ensures Search(w, L).score == Cost(Forward(Search(w, L).rows), L)
  {
    var n := |w|;
    var rows := Search(w, L).rows;
    var start: Layout := [[w[n - 1]]];
    assert Flatten(start) == [w[n - 1]] + Flatten([]);
    assert Reverse(w) == [w[n - 1]] + Reverse(w[..n - 1]);
    assert Flatten(rows) == Reverse(w);
    FlattenForward(rows);
    ReverseReverse(w);
    assert |rows[0]| > 0;
    ForwardKeepsShape(rows, L);
    CostForward(rows, L);
  }

  /** The search's score is at most the cost of every layout of `w` whose
      multi-word lines fit. */
  lemma SearchOptimal(w: seq<nat>, L: int, p: Layout)
    requires |w| > 0 && IsPartition(p, w) && MultiWordFit(p, L)
    ensures Search(w, L).score <= Cost(p, L)
  {
    var rows := Forward(p);
    FlattenForward(p);
    ForwardKeepsShape(p, L);
    CostForward(p, L);
    StartExtends(rows, w);
    RecOptimal(w[..|w| - 1], L, [[w[|w| - 1]]], rows);
  }

  /** Every back-to-front layout of `w` completes the initial search state. */
  lemma StartExtends(rows: Layout, w: seq<nat>)
    requires |w| > 0 && Flatten(rows) == Reverse(w)
    requires forall k :: 0 <= k < |rows| ==> |rows[k]| > 0
    ensures Extends(rows, w[..|w| - 1], [[w[|w| - 1]]])
  {
    var n := |w|;
    var start: Layout := [[w[n - 1]]];
    assert Flatten(start) == [w[n - 1]] + Flatten([]);
    assert Reverse(w) == [w[n - 1]] + Reverse(w[..n - 1]);
    assert |rows| > 0;
    assert Flatten(rows) == rows[0] + Flatten(rows[1..]);
    assert Flatten(rows)[0] == rows[0][0];
    assert Reverse(w)[0] == w[n - 1];
    assert [w[n - 1]] <= rows[0];
  }
}

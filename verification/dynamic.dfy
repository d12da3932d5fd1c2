/** `mise_en_page_dynamique`: bottom-up dynamic programming over suffixes.
    `memo[i]` is the best score of the words from `i` on and `cuts[i]` the
    index just after the first line of a best layout of that suffix; the
    lines are rebuilt by following `cuts` from word 0. */
module Dynamic {
  import opened Layouts

  /** The test that ends the inner loop.  As written the space in front of a
      word is added after the comparison with `L`, so a line of two or more
      words passes with one column too many; the corrected test compares the
      full content length. */
  predicate LineFits(rule: FitTest, L: int, line: Line) {
    Width(line) <= L + (if rule == AsWritten && |line| >= 2 then 1 else 0)
  }

  predicate AllLinesFit(rule: FitTest, L: int, p: Layout) {
    forall k :: 0 <= k < |p| ==> LineFits(rule, L, p[k])
  }

  /** The pair `(memo[i], cuts[i])` while the inner loop runs. */
  datatype Pick = Pick(score: Score, cut: Option<nat>)

  /** The final value of `memo[i]`. */
  function Opt(rule: FitTest, w: seq<nat>, L: int, i: nat): Score
    requires i <= |w|
    decreases |w| - i, 1, 0
  {
    if i == |w| then Finite(0) else Best(rule, w, L, i, |w|).score
  }

  /** `(memo[i], cuts[i])` once the cuts before `k` have been tried: a cut is
      kept only when it is strictly better than the one found so far. */
  function Best(rule: FitTest, w: seq<nat>, L: int, i: nat, k: nat): Pick
    requires i <= k <= |w|
    decreases |w| - i, 0, k
  {
    if k == i then Pick(Infinite, None)
    else
      var prev := Best(rule, w, L, i, k - 1);
      var cand := Candidate(rule, w, L, i, k - 1);
      if cand.Below(prev.score) then Pick(cand, Some(k)) else prev
  }

  /** The score of a first line `w[i..j+1]` followed by the best layout of
      the rest, or infinity when the line fails the test. */
  function Candidate(rule: FitTest, w: seq<nat>, L: int, i: nat, j: nat): Score
    requires i <= j < |w|
    decreases |w| - i, 0, j
  {
    var line := w[i..j + 1];
    if LineFits(rule, L, line) then Opt(rule, w, L, j + 1).Plus(Sq(L - Width(line))) else Infinite
  }

  // ---------------------------------------------------------------------
  // The recurrence

  /** The kept pick is the least of the candidates tried, its cut is the
      first candidate reaching it, and there is a cut exactly when the score
      is finite. */
  lemma {:induction false} BestIsMin(rule: FitTest, w: seq<nat>, L: int, i: nat, k: nat)
    requires i <= k <= |w|
    ensures forall j :: i <= j < k ==> Best(rule, w, L, i, k).score.AtMost(Candidate(rule, w, L, i, j))
    ensures Best(rule, w, L, i, k).cut.None? <==> Best(rule, w, L, i, k).score.Infinite?
    ensures Best(rule, w, L, i, k).cut.Some? ==>
      var c := Best(rule, w, L, i, k).cut.value;
      i < c <= k && Best(rule, w, L, i, k).score == Candidate(rule, w, L, i, c - 1)
    ensures Best(rule, w, L, i, k).cut.Some? ==>
      forall j :: i <= j < Best(rule, w, L, i, k).cut.value - 1 ==>
        Best(rule, w, L, i, k).score.Below(Candidate(rule, w, L, i, j))
    decreases k
  {
    if k > i {
      BestIsMin(rule, w, L, i, k - 1);
    }
  }

  /** Once a line fails the test, every longer line from the same word fails
      it too. */
  lemma FitMonotone(rule: FitTest, w: seq<nat>, L: int, i: nat, j: nat, j': nat)
    requires i <= j <= j' < |w| && !LineFits(rule, L, w[i..j + 1])
    ensures !LineFits(rule, L, w[i..j' + 1])
  {
    var s := w[i..j' + 1];
    assert s[..j - i + 1] == w[i..j + 1];
    PrefixWidth(s, j - i + 1);
  }

  /** Breaking out of the inner loop at a line that fails the test loses
      nothing: no later cut can be kept. */
  lemma {:induction false} BestStable(rule: FitTest, w: seq<nat>, L: int, i: nat, j: nat, k: nat)
    requires i <= j < k <= |w| && !LineFits(rule, L, w[i..j + 1])
    ensures Best(rule, w, L, i, k) == Best(rule, w, L, i, j)
    decreases k
  {
    FitMonotone(rule, w, L, i, j, k - 1);
    if k - 1 > j {
      BestStable(rule, w, L, i, j, k - 1);
    }
  }

  /** A word is no longer than a line holding it allows. */
  lemma WordOfFittingLine(rule: FitTest, L: int, line: Line, k: nat)
    requires k < |line| && LineFits(rule, L, line)
    ensures line[k] <= L
  {
    ElementWithinSum(line, k);
  }

  /** The suffix from `i` has a finite score exactly when none of its words is
      longer than `L`. */
  lemma {:induction false} OptFinite(rule: FitTest, w: seq<nat>, L: int, i: nat)
    requires i <= |w|
    ensures Opt(rule, w, L, i).Finite? <==> forall k :: i <= k < |w| ==> w[k] <= L
    decreases |w| - i
  {
    if i < |w| {
      OptFinite(rule, w, L, i + 1);
      BestIsMin(rule, w, L, i, |w|);
      var b := Best(rule, w, L, i, |w|);
      if forall k :: i <= k < |w| ==> w[k] <= L {
        assert w[i..i + 1] == [w[i]];
        assert Sum([w[i]]) == w[i] + Sum([]);
        assert Candidate(rule, w, L, i, i).Finite?;
      }
      if b.score.Finite? {
        var c := b.cut.value;
        var line := w[i..c];
        OptFinite(rule, w, L, c);
        forall k | i <= k < c
          ensures w[k] <= L
        {
          assert line[k - i] == w[k];
          WordOfFittingLine(rule, L, line, k - i);
        }
      }
    }
  }

  /** The score of the suffix from `i` is at most the cost of every layout of
      it whose lines pass the test. */
  lemma {:induction false} OptOptimal(rule: FitTest, w: seq<nat>, L: int, i: nat, p: Layout)
    requires i <= |w| && IsPartition(p, w[i..]) && AllLinesFit(rule, L, p)
    ensures Opt(rule, w, L, i).Finite? && Opt(rule, w, L, i).value <= Cost(p, L)
    decreases |w| - i
  {
    if i == |w| {
      assert w[i..] == [];
      NoLinesForNoWords(p);
    } else {
      PartitionTail(p, w[i..]);
      var m := |p[0]|;
      assert p[0] == w[i..i + m];
      assert w[i..][m..] == w[i + m..];
      assert AllLinesFit(rule, L, p[1..]) by {
        forall k | 0 <= k < |p[1..]|
          ensures LineFits(rule, L, p[1..][k])
        {
          assert p[1..][k] == p[k + 1];
        }
      }
      OptOptimal(rule, w, L, i + m, p[1..]);
      BestIsMin(rule, w, L, i, |w|);
      assert Candidate(rule, w, L, i, i + m - 1) == Opt(rule, w, L, i + m).Plus(Sq(L - Width(p[0])));
    }
  }

  /** The lines read off `cuts` from word `i`: `w[i..cuts[i]]`, then the
      lines from `cuts[i]` on. */
  function Follow(rule: FitTest, w: seq<nat>, L: int, i: nat): Layout
    requires i <= |w| && Opt(rule, w, L, i).Finite?
    decreases |w| - i
  {
    if i == |w| then []
    else
      BestIsMin(rule, w, L, i, |w|);
      var c := Best(rule, w, L, i, |w|).cut.value;
      [w[i..c]] + Follow(rule, w, L, c)
  }

  /** The layout that follows the cuts from `i` is a partition of the suffix
      whose lines pass the test and whose cost is the suffix's score. */
  lemma {:induction false} CutsAchieve(rule: FitTest, w: seq<nat>, L: int, i: nat) returns (p: Layout)
    requires i <= |w| && Opt(rule, w, L, i).Finite?
    ensures p == Follow(rule, w, L, i)
    ensures IsPartition(p, w[i..]) && AllLinesFit(rule, L, p)
    ensures Cost(p, L) == Opt(rule, w, L, i).value
    decreases |w| - i
  {
    if i == |w| {
      p := [];
      assert w[i..] == [];
    } else {
      BestIsMin(rule, w, L, i, |w|);
      var c := Best(rule, w, L, i, |w|).cut.value;
      var q := CutsAchieve(rule, w, L, c);
      var line := w[i..c];
      p := [line] + q;
      assert w[i..] == line + w[c..];
      PartitionCons(line, q, w[c..]);
      assert p[1..] == q;
      assert forall k :: 1 <= k < |p| ==> p[k] == q[k - 1];
    }
  }

  // ---------------------------------------------------------------------
  // The program

  /** The two nested loops that fill `memo` and `cuts`, from the last word
      back to the first. */
  method FillTables(rule: FitTest, w: seq<nat>, L: int) returns (memo: seq<Score>, cuts: seq<Option<nat>>)
    ensures |memo| == |w| + 1 && |cuts| == |w|
    ensures forall i :: 0 <= i <= |w| ==> memo[i] == Opt(rule, w, L, i)
    ensures forall i :: 0 <= i < |w| ==> cuts[i] == Best(rule, w, L, i, |w|).cut
  {
    var n := |w|;
    memo := seq(n, _ => Infinite) + [Finite(0)];
    cuts := seq(n, _ => None);
    var i: nat := n;
    while i > 0
      invariant i <= n && |memo| == n + 1 && |cuts| == n
      invariant forall k :: i <= k <= n ==> memo[k] == Opt(rule, w, L, k)
      invariant forall k :: i <= k < n ==> cuts[k] == Best(rule, w, L, k, n).cut
      invariant forall k :: 0 <= k < i ==> memo[k] == Infinite && cuts[k] == None
    {
      i := i - 1;
      memo, cuts := FillRow(rule, w, L, i, memo, cuts);
    }
  }

  /** The inner loop for word `i`: it tries the lines `w[i..j+1]` for growing
      `j` until one fails the test, keeping a cut when it strictly improves
      `memo[i]`.  Only entry `i` of each table changes. */
  method FillRow(rule: FitTest, w: seq<nat>, L: int, i: nat, memo: seq<Score>, cuts: seq<Option<nat>>)
    returns (memo': seq<Score>, cuts': seq<Option<nat>>)
    requires i < |w| && |memo| == |w| + 1 && |cuts| == |w|
    requires memo[i] == Infinite && cuts[i] == None
    requires forall k :: i < k <= |w| ==> memo[k] == Opt(rule, w, L, k)
    ensures memo' == memo[i := Opt(rule, w, L, i)]
    ensures cuts' == cuts[i := Best(rule, w, L, i, |w|).cut]
  {
    var n := |w|;
    memo', cuts' := memo, cuts;
    var curr: int := 0;
    var j: nat := i;
    while j < n
      invariant i <= j <= n
      invariant memo' == memo[i := Best(rule, w, L, i, j).score]
      invariant cuts' == cuts[i := Best(rule, w, L, i, j).cut]
      invariant curr == if j == i then 0 else Width(w[i..j])
    {
      ghost var line := w[i..j + 1];
      if j == i {
        assert line == [w[j]];
        assert Sum([w[j]]) == w[j] + Sum([]);
      } else {
        assert line == w[i..j] + [w[j]];
        WidthSnoc(w[i..j], w[j]);
      }
      curr := curr + w[j];
      if rule == Corrected && j != i {
        curr := curr + 1;
      }
      if curr > L {
        BestStable(rule, w, L, i, j, n);
        break;
      }
      if rule == AsWritten && j != i {
        curr := curr + 1;
      }
      var cost := memo'[j + 1].Plus(Sq(L - curr));
      if cost.Below(memo'[i]) {
        memo' := memo'[i := cost];
        cuts' := cuts'[i := Some(j + 1)];
      }
      assert curr == Width(line);
      j := j + 1;
    }
  }

  /** `mise_en_page_dynamique` on the word lengths (the program splits on
      runs of whitespace, so no word is empty; the model does not need that).
      Following a missing cut crashes the program; that happens exactly when
      some word is longer than `L`.  The score is recomputed from the lines
      with `get_error`. */
  method Dynamique(rule: FitTest, w: seq<nat>, L: int) returns (r: Result<(Layout, nat)>)
    ensures r.Failure? <==> exists k :: 0 <= k < |w| && w[k] > L
    ensures r.Success? ==> IsPartition(r.value.0, w) && AllLinesFit(rule, L, r.value.0)
    ensures r.Success? ==> r.value.1 == Cost(r.value.0, L) && Opt(rule, w, L, 0) == Finite(r.value.1)
    ensures r.Success? ==>
      forall p :: IsPartition(p, w) && AllLinesFit(rule, L, p) ==> r.value.1 <= Cost(p, L)
    ensures r.Success? && rule == Corrected ==> AllFit(r.value.0, L)
    ensures r.Success? ==> r.value.0 == Follow(rule, w, L, 0)
  {
    var memo, cuts := FillTables(rule, w, L);
    OptFinite(rule, w, L, 0);
    var t: Layout := [];
    var i: nat := 0;
    while i < |w|
      invariant i <= |w| && IsPartition(t, w[..i]) && AllLinesFit(rule, L, t)
      invariant Opt(rule, w, L, 0) == Opt(rule, w, L, i).Plus(Cost(t, L))
      invariant Opt(rule, w, L, i).Finite? ==> Opt(rule, w, L, 0).Finite? && Follow(rule, w, L, 0) == t + Follow(rule, w, L, i)
      decreases |w| - i
    {
      BestIsMin(rule, w, L, i, |w|);
      match cuts[i]
      case None =>
        return Failure(InfeasibleWord);
      case Some(c) =>
        FollowCut(rule, w, L, t, i);
        t := t + [w[i..c]];
        i := c;
    }
    assert w[..i] == w;
    var s := GetError(t, L);
    GetErrorIsCost(t, L);
    r := Success((t, s));
    assert w[0..] == w;
    forall p | IsPartition(p, w) && AllLinesFit(rule, L, p)
      ensures s <= Cost(p, L)
    {
      OptOptimal(rule, w, L, 0, p);
    }
  }

  /** Following the cut from `i` adds one line that passes the test, and the
      score still splits into the rest's score plus the lines so far. */
  lemma FollowCut(rule: FitTest, w: seq<nat>, L: int, t: Layout, i: nat)
    requires i < |w| && IsPartition(t, w[..i]) && AllLinesFit(rule, L, t)
    requires Opt(rule, w, L, 0) == Opt(rule, w, L, i).Plus(Cost(t, L))
    requires Best(rule, w, L, i, |w|).cut.Some?
    requires Opt(rule, w, L, i).Finite? ==> Opt(rule, w, L, 0).Finite? && Follow(rule, w, L, 0) == t + Follow(rule, w, L, i)
    ensures var c := Best(rule, w, L, i, |w|).cut.value;
      i < c <= |w| && IsPartition(t + [w[i..c]], w[..c]) && AllLinesFit(rule, L, t + [w[i..c]])
      && Opt(rule, w, L, 0) == Opt(rule, w, L, c).Plus(Cost(t + [w[i..c]], L))
      && Opt(rule, w, L, c).Finite? && Follow(rule, w, L, 0) == t + [w[i..c]] + Follow(rule, w, L, c)
  {
    BestIsMin(rule, w, L, i, |w|);
    var c := Best(rule, w, L, i, |w|).cut.value;
    var line := w[i..c];
    assert w[..c] == w[..i] + line;
    FlattenSnoc(t, line);
    CostAppend(t, [line], L);
    CostSingle(line, L);
    assert forall k :: 0 <= k < |t + [line]| ==> (t + [line])[k] == if k < |t| then t[k] else line;
    assert Follow(rule, w, L, i) == [line] + Follow(rule, w, L, c);
  }

  /** As written, `[1, 1]` on a page of width 2 scores 1: the whole text on
      one line of width 3.  With the corrected test the score is 2, one word
      per line, the only layout whose lines fit. */
  lemma WideLineAccepted(w: seq<nat>, L: int)
    requires w == [1, 1] && L == 2
    ensures Opt(AsWritten, w, L, 0) == Finite(1)
    ensures Width(w) == L + 1
    ensures Opt(Corrected, w, L, 0) == Finite(2)
  {
    assert Sum([1]) == 1 + Sum([]);
    assert Sum([1, 1]) == 1 + Sum([1]);
    assert Width(w) == 3;
    assert Sq(L - 1) + Sq(L - 1) == 2 && Sq(L - 3) == 1;
    assert LineFits(AsWritten, L, w) && !LineFits(Corrected, L, w);
    TwoWords(AsWritten, 1, 1, L);
    TwoWords(Corrected, 1, 1, L);
  }

  /** A text of two words: one line holding both is kept only when it passes
      the test and is strictly cheaper than a line per word. */
  lemma TwoWords(rule: FitTest, a: nat, b: nat, L: int)
    requires a <= L && b <= L
    ensures var split := Sq(L - a) + Sq(L - b);
      var joined := Sq(L - Width([a, b]));
      Opt(rule, [a, b], L, 0) == if LineFits(rule, L, [a, b]) && joined < split then Finite(joined) else Finite(split)
  {
    var w := [a, b];
    LastWordAlone(rule, w, L);
    assert w[0..1] == [a] && w[0..2] == w;
    assert Sum([a]) == a + Sum([]);
    assert Candidate(rule, w, L, 0, 0) == Finite(Sq(L - b) + Sq(L - a));
    assert Best(rule, w, L, 0, 1) == Pick(Finite(Sq(L - b) + Sq(L - a)), Some(1));
    assert Opt(rule, w, L, 2) == Finite(0);
    var joined := if LineFits(rule, L, w) then Finite(Sq(L - Width(w))) else Infinite;
    assert Candidate(rule, w, L, 0, 1) == joined;
    var split := Best(rule, w, L, 0, 1);
    assert Best(rule, w, L, 0, 2) == if joined.Below(split.score) then Pick(joined, Some(2)) else split;
  }

  /** The last word of the text sits alone on the last line. */
  lemma LastWordAlone(rule: FitTest, w: seq<nat>, L: int)
    requires |w| > 0 && w[|w| - 1] <= L
    ensures Opt(rule, w, L, |w| - 1) == Finite(Sq(L - w[|w| - 1]))
  {
    var i := |w| - 1;
    assert w[i..i + 1] == [w[i]];
    assert Sum([w[i]]) == w[i] + Sum([]);
    assert Opt(rule, w, L, i + 1) == Finite(0);
    assert Candidate(rule, w, L, i, i) == Finite(Sq(L - w[i]));
    assert Best(rule, w, L, i, i + 1) == Pick(Finite(Sq(L - w[i])), Some(i + 1));
  }
}

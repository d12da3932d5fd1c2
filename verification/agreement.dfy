/** How the solvers' optima relate.  The greedy, exhaustive and corrected
    memoised solvers admit the same layouts (multi-word lines fit in `L`);
    the dynamic program as written admits multi-word lines one column wider,
    and the memoised solver as written rejects some two-word line starts
    that fit.  With every word between 1 and `L` columns long, this orders
    the optimal scores, and with the corrected fit tests all of them agree. */
module Agreement {
  import opened Layouts
  import Greedy
  import Exhaustive
  import Memo
  import Dynamic

  predicate Feasible(w: seq<nat>, L: int) {
    |w| > 0 && forall k :: 0 <= k < |w| ==> 1 <= w[k] <= L
  }

  /** The corrected memoised test admits exactly the layouts whose
      multi-word lines fit. */
  lemma CorrectedMemoAdmits(p: Layout, L: int)
    ensures Memo.Admissible(Corrected, L, p) <==> MultiWordFit(p, L)
  {
    if Memo.Admissible(Corrected, L, p) {
      forall k | 0 <= k < |p| && |p[k]| >= 2
        ensures Width(p[k]) <= L
      {
        assert Memo.LineOk(Corrected, L, p[k]);
      }
    }
  }

  /** Every layout the memoised solver admits as written has its multi-word
      lines within `L`. */
  lemma MemoAdmitsFitting(p: Layout, L: int)
    requires Memo.Admissible(AsWritten, L, p)
    ensures MultiWordFit(p, L)
  {
    forall k | 0 <= k < |p| && |p[k]| >= 2
      ensures Width(p[k]) <= L
    {
      assert Memo.LineOk(AsWritten, L, p[k]);
    }
  }

  /** A layout whose lines all fit passes either dynamic-programming test. */
  lemma FittingPassesDp(rule: FitTest, p: Layout, L: int)
    requires AllFit(p, L)
    ensures Dynamic.AllLinesFit(rule, L, p)
  {
    forall k | 0 <= k < |p|
      ensures Dynamic.LineFits(rule, L, p[k])
    {
      assert Width(p[k]) <= L;
    }
  }

  /** The corrected dynamic-programming test admits exactly the layouts
      whose lines all fit. */
  lemma CorrectedDpAdmits(p: Layout, L: int)
    ensures Dynamic.AllLinesFit(Corrected, L, p) <==> AllFit(p, L)
  {
    if Dynamic.AllLinesFit(Corrected, L, p) {
      forall k | 0 <= k < |p|
        ensures Width(p[k]) <= L
      {
        assert Dynamic.LineFits(Corrected, L, p[k]);
      }
    } else {
      var k :| 0 <= k < |p| && !Dynamic.LineFits(Corrected, L, p[k]);
      assert Width(p[k]) > L;
    }
  }

  /** With the corrected fit tests, the memoised recurrence, the dynamic
      program and the exhaustive search reach the same optimal score. */
  lemma CorrectedSolversAgree(w: seq<nat>, L: int)
    requires Feasible(w, L)
    ensures Memo.Aux(Corrected, w, L, 0, 0) == Exhaustive.Search(w, L).score
    ensures Dynamic.Opt(Corrected, w, L, 0) == Finite(Exhaustive.Search(w, L).score)
  {
    var e := Exhaustive.Search(w, L);
    var ep := Forward(e.rows);
    Exhaustive.SearchSound(w, L);
    AllFitIffShortWords(ep, w, L);

    Memo.PlanIsLayout(Corrected, w, L);
    var mp := Memo.Plan(Corrected, w, L, 0, 0);
    CorrectedMemoAdmits(mp, L);
    CorrectedMemoAdmits(ep, L);
    Exhaustive.SearchOptimal(w, L, mp);
    Memo.AuxIsLeastCost(Corrected, w, L, ep);

    Dynamic.OptFinite(Corrected, w, L, 0);
    var dp := Dynamic.CutsAchieve(Corrected, w, L, 0);
    assert w[0..] == w;
    CorrectedDpAdmits(dp, L);
    AllFitIffShortWords(dp, w, L);
    Exhaustive.SearchOptimal(w, L, dp);
    FittingPassesDp(Corrected, ep, L);
    Dynamic.OptOptimal(Corrected, w, L, 0, ep);
  }

  /** As written, the dynamic program scores no more than the exhaustive
      search, which scores no more than the memoised recurrence. */
  lemma AsWrittenOrder(w: seq<nat>, L: int)
    requires Feasible(w, L)
    ensures Dynamic.Opt(AsWritten, w, L, 0).Finite?
    ensures Dynamic.Opt(AsWritten, w, L, 0).value <= Exhaustive.Search(w, L).score
    ensures Exhaustive.Search(w, L).score <= Memo.Aux(AsWritten, w, L, 0, 0)
  {
    var ep := Forward(Exhaustive.Search(w, L).rows);
    Exhaustive.SearchSound(w, L);
    AllFitIffShortWords(ep, w, L);
    FittingPassesDp(AsWritten, ep, L);
    assert w[0..] == w;
    Dynamic.OptOptimal(AsWritten, w, L, 0, ep);

    Memo.PlanIsLayout(AsWritten, w, L);
    var mp := Memo.Plan(AsWritten, w, L, 0, 0);
    MemoAdmitsFitting(mp, L);
    Exhaustive.SearchOptimal(w, L, mp);
  }

  /** No first-fit layout beats the exhaustive search. */
  lemma GreedyNoBetter(w: seq<nat>, L: int, p: Layout)
    requires |w| > 0 && Greedy.IsFirstFit(p, w, L)
    ensures Exhaustive.Search(w, L).score <= Cost(p, L)
  {
    Exhaustive.SearchOptimal(w, L, p);
  }
}

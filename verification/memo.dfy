/** `mise_en_page_memoisation`: the recurrence `aux(i, j)` over (word index,
    column already used on the current line), cached in a dictionary, and the
    forward walk that rebuilds the lines from the dictionary.

    `j == 0` marks the start of a line; elsewhere word `i` is preceded by a
    space, so it ends at column `j + c[i] + 1`. */
module Memo {
  import opened Layouts
  import Render

  /** The space in front of a word at column `j`. */
  function Esp(j: nat): nat {
    if j == 0 then 0 else 1
  }

  /** The test "word `i + 1` can follow word `i` placed at column `j`".  As
      written it always counts a space in front of word `i`, even at the
      start of a line; the corrected test counts it only where there is one. */
  predicate Fits(rule: FitTest, c: seq<nat>, L: int, i: nat, j: nat)
    requires i + 1 < |c|
  {
    match rule
    case AsWritten => j + c[i] + 1 + c[i + 1] + 1 <= L
    case Corrected => j + c[i] + Esp(j) + 1 + c[i + 1] <= L
  }

  predicate ShortWords(c: seq<nat>, L: int) {
    forall k :: 0 <= k < |c| ==> c[k] <= L
  }

  /** Every word has at least one character (no empty word from repeated
      spaces). */
  predicate Positive(c: seq<nat>) {
    forall k :: 0 <= k < |c| ==> c[k] >= 1
  }

  function Min(a: nat, b: nat): nat {
    if a <= b then a else b
  }

  /** `aux(i, j)` without the cache: the best score of the words from `i` on
      when word `i` is placed at column `j`. */
  function Aux(rule: FitTest, c: seq<nat>, L: int, i: nat, j: nat): nat
    requires i < |c| && ShortWords(c, L)
    decreases |c| - i
  {
    var close := Sq(L - j - c[i] - Esp(j));
    if i == |c| - 1 then close
    else if !Fits(rule, c, L, i, j) then Aux(rule, c, L, i + 1, 0) + close
    else Min(Aux(rule, c, L, i + 1, 0) + close, Aux(rule, c, L, i + 1, j + c[i] + Esp(j)))
  }

  // ---------------------------------------------------------------------
  // What the recurrence optimises

  /** A line the memoised solver can build from its first word: as written,
      its first two words need one spare column. */
  predicate LineOk(rule: FitTest, L: int, line: Line) {
    |line| >= 2 ==> Width(line) <= L && (rule == AsWritten ==> Width(line[..2]) + 1 <= L)
  }

  predicate Admissible(rule: FitTest, L: int, p: Layout) {
    forall k :: 0 <= k < |p| ==> LineOk(rule, L, p[k])
  }

  /** The column reached by `line` when it continues a line filled to `j`. */
  function Fill(j: nat, line: Line): int {
    if j == 0 then Width(line) else j + 1 + Width(line)
  }

  /** `p` lays out the words from `i` on, its first line continuing a line
      already filled to `j`. */
  predicate ContinuationOk(rule: FitTest, L: int, j: nat, p: Layout)
    requires |p| > 0
  {
    (if j == 0 then LineOk(rule, L, p[0]) else |p[0]| >= 2 ==> Fill(j, p[0]) <= L)
    && forall k :: 1 <= k < |p| ==> LineOk(rule, L, p[k])
  }

  function ContinuationCost(L: int, j: nat, p: Layout): nat
    requires |p| > 0
  {
    Sq(L - Fill(j, p[0])) + Cost(p[1..], L)
  }

  /** `aux(i, j)` is at most the cost of every admissible way to lay out the
      remaining words. */
  lemma {:induction false} AuxOptimal(rule: FitTest, c: seq<nat>, L: int, i: nat, j: nat, p: Layout)
    requires i < |c| && ShortWords(c, L) && Positive(c)
    requires IsPartition(p, c[i..]) && |p| > 0 && ContinuationOk(rule, L, j, p)
    ensures Aux(rule, c, L, i, j) <= ContinuationCost(L, j, p)
    decreases |c| - i
  {
    PartitionTail(p, c[i..]);
    if |p[0]| == 1 {
      AloneSplit(rule, c, L, i, j, p);
      if i < |c| - 1 {
        AuxOptimal(rule, c, L, i + 1, 0, p[1..]);
      }
    } else {
      var q := JoinSplit(rule, c, L, i, j, p);
      AuxOptimal(rule, c, L, i + 1, j + c[i] + Esp(j), q);
    }
  }

  /** A first line holding word `i` alone closes at `j + c[i] (+ 1)`; the
      rest is a layout of the words after `i` starting a fresh line. */
  lemma AloneSplit(rule: FitTest, c: seq<nat>, L: int, i: nat, j: nat, p: Layout)
    requires i < |c| && ShortWords(c, L)
    requires IsPartition(p, c[i..]) && |p| > 0 && ContinuationOk(rule, L, j, p) && |p[0]| == 1
    ensures i == |c| - 1 ==> p == [[c[i]]] && ContinuationCost(L, j, p) == Sq(L - j - c[i] - Esp(j))
    ensures i < |c| - 1 ==>
      |p| > 1 && IsPartition(p[1..], c[i + 1..]) && ContinuationOk(rule, L, 0, p[1..])
      && ContinuationCost(L, j, p) == Sq(L - j - c[i] - Esp(j)) + ContinuationCost(L, 0, p[1..])
  {
    PartitionTail(p, c[i..]);
    var line := p[0];
    assert line == [c[i]];
    assert Sum(line) == c[i] + Sum([]);
    assert c[i..][1..] == c[i + 1..];
    if i < |c| - 1 {
      var rest := p[1..];
      assert |rest| > 0;
      assert rest[1..] == p[2..];
      assert forall k :: 1 <= k < |rest| ==> rest[k] == p[k + 1];
    } else {
      assert |p[1..]| == 0;
      assert p == [p[0]] + p[1..];
    }
  }

  /** A first line of two or more words: word `i` passed the fit test at `j`,
      and the line without it continues from column `j + c[i] (+ 1)`. */
  lemma JoinSplit(rule: FitTest, c: seq<nat>, L: int, i: nat, j: nat, p: Layout) returns (q: Layout)
    requires i < |c| && ShortWords(c, L) && Positive(c)
    requires IsPartition(p, c[i..]) && |p| > 0 && ContinuationOk(rule, L, j, p) && |p[0]| >= 2
    ensures i + 1 < |c| && Fits(rule, c, L, i, j)
    ensures IsPartition(q, c[i + 1..]) && |q| > 0 && ContinuationOk(rule, L, j + c[i] + Esp(j), q)
    ensures ContinuationCost(L, j + c[i] + Esp(j), q) == ContinuationCost(L, j, p)
  {
    PartitionTail(p, c[i..]);
    var line := p[0];
    var j' := j + c[i] + Esp(j);
    var tail := line[1..];
    q := [tail] + p[1..];
    assert line[0] == c[i];
    assert line == [c[i]] + tail;
    WidthCons(c[i], tail);
    assert i + 1 < |c| by {
      assert |line| <= |c[i..]|;
    }
    assert tail[0] == c[i + 1];
    assert Fill(j', tail) == Fill(j, line);
    PrefixWidth(line, 2);
    assert line[..2] == [c[i], c[i + 1]];
    WidthCons(c[i], [c[i + 1]]);
    assert Sum([c[i + 1]]) == c[i + 1] + Sum([]);
    assert c[i..] == line + Flatten(p[1..]);
    assert c[i + 1..] == tail + Flatten(p[1..]);
    PartitionCons(tail, p[1..], Flatten(p[1..]));
    assert q[1..] == p[1..];
    assert forall k :: 1 <= k < |q| ==> q[k] == p[k];
  }

  /** The lines the recurrence's choices describe. */
  ghost function Plan(rule: FitTest, c: seq<nat>, L: int, i: nat, j: nat): Layout
    requires i < |c| && ShortWords(c, L)
    decreases |c| - i
  {
    if i == |c| - 1 then [[c[i]]]
    else
      var j' := j + c[i] + Esp(j);
      if Fits(rule, c, L, i, j) && Aux(rule, c, L, i + 1, j') <= Aux(rule, c, L, i + 1, 0) + Sq(L - j') then
        var q := Plan(rule, c, L, i + 1, j');
        if |q| == 0 then [[c[i]]] else [[c[i]] + q[0]] + q[1..]
      else
        [[c[i]]] + Plan(rule, c, L, i + 1, 0)
  }

  /** For positive word lengths the recurrence's value is reached: `Plan` is
      an admissible layout of the remaining words whose cost is `aux(i, j)`. */
  lemma {:induction false} PlanAchieves(rule: FitTest, c: seq<nat>, L: int, i: nat, j: nat)
    requires i < |c| && ShortWords(c, L) && Positive(c)
    ensures var p := Plan(rule, c, L, i, j);
      IsPartition(p, c[i..]) && |p| > 0 && ContinuationOk(rule, L, j, p)
      && ContinuationCost(L, j, p) == Aux(rule, c, L, i, j)
    decreases |c| - i
  {
    if i == |c| - 1 {
      assert c[i..] == [c[i]];
      assert Flatten([[c[i]]]) == [c[i]] + Flatten([]);
      assert Sum([c[i]]) == c[i] + Sum([]);
    } else {
      var j' := j + c[i] + Esp(j);
      var close := Sq(L - j - c[i] - Esp(j));
      assert close == Sq(L - j');
      if Fits(rule, c, L, i, j) && Aux(rule, c, L, i + 1, j') <= Aux(rule, c, L, i + 1, 0) + Sq(L - j') {
        var q := Plan(rule, c, L, i + 1, j');
        PlanAchieves(rule, c, L, i + 1, j');
        PlanJoins(rule, c, L, i, j);
        JoinStep(rule, c, L, i, j, q);
      } else {
        var q := Plan(rule, c, L, i + 1, 0);
        PlanAchieves(rule, c, L, i + 1, 0);
        PlanBreaks(rule, c, L, i, j);
        BreakStep(rule, c, L, i, j, q);
      }
    }
  }

  /** One step of the plan and of the recurrence when word `i` is continued. */
  lemma PlanJoins(rule: FitTest, c: seq<nat>, L: int, i: nat, j: nat)
    requires i + 1 < |c| && ShortWords(c, L) && Fits(rule, c, L, i, j)
    requires var j' := j + c[i] + Esp(j);
      Aux(rule, c, L, i + 1, j') <= Aux(rule, c, L, i + 1, 0) + Sq(L - j') && |Plan(rule, c, L, i + 1, j')| > 0
    ensures var q := Plan(rule, c, L, i + 1, j + c[i] + Esp(j));
      Plan(rule, c, L, i, j) == [[c[i]] + q[0]] + q[1..]
      && Aux(rule, c, L, i, j) == Aux(rule, c, L, i + 1, j + c[i] + Esp(j))
  {
  }

  /** One step of the plan and of the recurrence when word `i` closes its line. */
  lemma PlanBreaks(rule: FitTest, c: seq<nat>, L: int, i: nat, j: nat)
    requires i + 1 < |c| && ShortWords(c, L)
    requires var j' := j + c[i] + Esp(j);
      !(Fits(rule, c, L, i, j) && Aux(rule, c, L, i + 1, j') <= Aux(rule, c, L, i + 1, 0) + Sq(L - j'))
    ensures Plan(rule, c, L, i, j) == [[c[i]]] + Plan(rule, c, L, i + 1, 0)
      && Aux(rule, c, L, i, j) == Aux(rule, c, L, i + 1, 0) + Sq(L - j - c[i] - Esp(j))
  {
  }

  /** Word `i` joins the first line of a continuation from column `j'`. */
  lemma JoinStep(rule: FitTest, c: seq<nat>, L: int, i: nat, j: nat, q: Layout)
    requires i + 1 < |c| && ShortWords(c, L) && Positive(c) && Fits(rule, c, L, i, j)
    requires IsPartition(q, c[i + 1..]) && |q| > 0 && ContinuationOk(rule, L, j + c[i] + Esp(j), q)
    ensures var p := [[c[i]] + q[0]] + q[1..];
      IsPartition(p, c[i..]) && ContinuationOk(rule, L, j, p)
      && ContinuationCost(L, j, p) == ContinuationCost(L, j + c[i] + Esp(j), q)
  {
    var j' := j + c[i] + Esp(j);
    var line := [c[i]] + q[0];
    var p := [line] + q[1..];
    assert c[i..] == [c[i]] + c[i + 1..];
    PartitionTail(q, c[i + 1..]);
    assert q[0][0] == c[i + 1];
    WidthCons(c[i], q[0]);
    assert Fill(j, line) == Fill(j', q[0]);
    assert q == [q[0]] + q[1..];
    assert Flatten(q) == q[0] + Flatten(q[1..]);
    assert Flatten(p) == line + Flatten(q[1..]);
    assert p[1..] == q[1..];
    assert forall k :: 1 <= k < |p| ==> p[k] == q[k];
    if j == 0 {
      assert line[..2] == [c[i], c[i + 1]];
      WidthCons(c[i], [c[i + 1]]);
      assert Sum([c[i + 1]]) == c[i + 1] + Sum([]);
      if |q[0]| == 1 {
        assert q[0] == [c[i + 1]];
      }
    } else if |q[0]| == 1 {
      assert q[0] == [c[i + 1]];
      assert Sum([c[i + 1]]) == c[i + 1] + Sum([]);
    }
  }

  /** Word `i` closes its line; the continuation starts the next one. */
  lemma BreakStep(rule: FitTest, c: seq<nat>, L: int, i: nat, j: nat, q: Layout)
    requires i + 1 < |c| && ShortWords(c, L) && Positive(c)
    requires IsPartition(q, c[i + 1..]) && |q| > 0 && ContinuationOk(rule, L, 0, q)
    ensures var p := [[c[i]]] + q;
      IsPartition(p, c[i..]) && ContinuationOk(rule, L, j, p)
      && ContinuationCost(L, j, p) == Sq(L - j - c[i] - Esp(j)) + ContinuationCost(L, 0, q)
  {
    var p := [[c[i]]] + q;
    assert c[i..] == [c[i]] + c[i + 1..];
    assert p[1..] == q;
    assert Flatten(p) == [c[i]] + Flatten(q);
    assert Sum([c[i]]) == c[i] + Sum([]);
    assert q == [q[0]] + q[1..];
    CostAppend([q[0]], q[1..], L);
    CostSingle(q[0], L);
    assert forall k :: 1 <= k < |p| ==> p[k] == q[k - 1];
  }

  /** At the top level the recurrence is the least cost over the layouts
      whose lines the memoised solver admits. */
  lemma AuxIsLeastCost(rule: FitTest, c: seq<nat>, L: int, p: Layout)
    requires |c| > 0 && ShortWords(c, L) && Positive(c)
    requires IsPartition(p, c) && Admissible(rule, L, p)
    ensures Aux(rule, c, L, 0, 0) <= Cost(p, L)
  {
    assert c[0..] == c;
    assert |p| > 0;
    AuxOptimal(rule, c, L, 0, 0, p);
  }

  /** The plan of the whole text is an admissible layout costing `aux(0, 0)`. */
  lemma PlanIsLayout(rule: FitTest, c: seq<nat>, L: int)
    requires |c| > 0 && ShortWords(c, L) && Positive(c)
    ensures IsPartition(Plan(rule, c, L, 0, 0), c)
    ensures Admissible(rule, L, Plan(rule, c, L, 0, 0))
    ensures Cost(Plan(rule, c, L, 0, 0), L) == Aux(rule, c, L, 0, 0)
  {
    assert c[0..] == c;
    PlanAchieves(rule, c, L, 0, 0);
    var p := Plan(rule, c, L, 0, 0);
    assert p == [p[0]] + p[1..];
  }

  // ---------------------------------------------------------------------
  // The dictionary

  type Cache = map<(nat, nat), nat>

  /** The state `(i, j)` can be reached: it starts a line, or the word before
      it passed the fit test at the one column that leads to `j`. */
  predicate Entered(rule: FitTest, c: seq<nat>, L: int, i: nat, j: nat)
    requires i < |c|
  {
    j == 0 || (i > 0 && ((j == c[i - 1] && Fits(rule, c, L, i - 1, 0))
                         || (j > c[i - 1] + 1 && Fits(rule, c, L, i - 1, j - c[i - 1] - 1))))
  }

  /** What the dictionary holds: for each key, the value of `aux`, a key that
      can be reached, and the keys of both sub-problems (the second one when
      the fit test passes). */
  ghost predicate Cached(rule: FitTest, c: seq<nat>, L: int, d: Cache) {
    ShortWords(c, L)
    && forall i, j {:trigger Entry(rule, c, L, d, i, j)} :: (i, j) in d ==> Entry(rule, c, L, d, i, j)
  }

  ghost predicate Entry(rule: FitTest, c: seq<nat>, L: int, d: Cache, i: nat, j: nat)
    requires ShortWords(c, L) && (i, j) in d
  {
    i < |c| && d[(i, j)] == Aux(rule, c, L, i, j) && Entered(rule, c, L, i, j)
    && (i + 1 < |c| ==> (i + 1, 0) in d
                        && (Fits(rule, c, L, i, j) ==> (i + 1, j + c[i] + Esp(j)) in d))
  }

  lemma CachedInsert(rule: FitTest, c: seq<nat>, L: int, d: Cache, i: nat, j: nat)
    requires Cached(rule, c, L, d) && i < |c| && Entered(rule, c, L, i, j)
    requires i + 1 < |c| ==> (i + 1, 0) in d
                             && (Fits(rule, c, L, i, j) ==> (i + 1, j + c[i] + Esp(j)) in d)
    ensures Cached(rule, c, L, d[(i, j) := Aux(rule, c, L, i, j)])
  {
    var d' := d[(i, j) := Aux(rule, c, L, i, j)];
    forall i', j' | (i', j') in d'
      ensures Entry(rule, c, L, d', i', j')
    {
      if (i', j') != (i, j) {
        assert Entry(rule, c, L, d, i', j');
      }
    }
  }

  /** Storing the value a key already has changes nothing. */
  lemma CachedKeep(d: Cache, i: nat, j: nat, v: nat)
    requires (i, j) in d && d[(i, j)] == v
    ensures d[(i, j) := v] == d
  {
  }

  /** `aux(i, j)` with the dictionary threaded through: a cached key is
      answered from the dictionary; otherwise both sub-problems are solved
      (the second only when the fit test passes) and the key is stored. */
  method AuxMemo(rule: FitTest, c: seq<nat>, L: int, i: nat, j: nat, d: Cache) returns (v: nat, d': Cache)
    requires i < |c| && Entered(rule, c, L, i, j) && Cached(rule, c, L, d)
    ensures v == Aux(rule, c, L, i, j)
    ensures Cached(rule, c, L, d') && (i, j) in d' && d.Keys <= d'.Keys
    decreases |c| - i
  {
    if (i, j) in d {
      assert Entry(rule, c, L, d, i, j);
      return d[(i, j)], d;
    }
    var mot := c[i];
    var espace := if j == 0 then 0 else 1;
    if i == |c| - 1 {
      CachedInsert(rule, c, L, d, i, j);
      d' := d[(i, j) := Sq(L - j - mot - espace)];
      return d'[(i, j)], d';
    }
    var a, d1 := AuxMemo(rule, c, L, i + 1, 0, d);
    assert Entry(rule, c, L, d1, i + 1, 0);
    CachedKeep(d1, i + 1, 0, a);
    d1 := d1[(i + 1, 0) := a];
    if !Fits(rule, c, L, i, j) {
      StoreClose(rule, c, L, d1, i, j);
      d' := d1[(i, j) := d1[(i + 1, 0)] + Sq(L - j - mot - espace)];
    } else {
      var next := j + mot + espace;
      var b, d2 := AuxMemo(rule, c, L, i + 1, next, d1);
      assert Entry(rule, c, L, d2, i + 1, next);
      CachedKeep(d2, i + 1, next, b);
      d2 := d2[(i + 1, next) := b];
      StoreBoth(rule, c, L, d2, i, j);
      d' := d2[(i, j) := Min(d2[(i + 1, 0)] + Sq(L - j - mot - espace), d2[(i + 1, next)])];
    }
    v := d'[(i, j)];
  }

  /** Storing `aux(i, j)` when the fit test fails: the only sub-problem is
      the fresh line after word `i`. */
  lemma StoreClose(rule: FitTest, c: seq<nat>, L: int, d: Cache, i: nat, j: nat)
    requires Cached(rule, c, L, d) && i + 1 < |c| && Entered(rule, c, L, i, j)
    requires (i + 1, 0) in d && !Fits(rule, c, L, i, j)
    ensures var d' := d[(i, j) := d[(i + 1, 0)] + Sq(L - j - c[i] - Esp(j))];
      Cached(rule, c, L, d') && d'[(i, j)] == Aux(rule, c, L, i, j)
  {
    assert Entry(rule, c, L, d, i + 1, 0);
    CachedInsert(rule, c, L, d, i, j);
  }

  /** Storing `aux(i, j)` when the fit test passes: the lesser of the two
      sub-problems. */
  lemma StoreBoth(rule: FitTest, c: seq<nat>, L: int, d: Cache, i: nat, j: nat)
    requires Cached(rule, c, L, d) && i + 1 < |c| && Entered(rule, c, L, i, j) && Fits(rule, c, L, i, j)
    requires (i + 1, 0) in d && (i + 1, j + c[i] + Esp(j)) in d
    ensures var d' := d[(i, j) := Min(d[(i + 1, 0)] + Sq(L - j - c[i] - Esp(j)), d[(i + 1, j + c[i] + Esp(j))])];
      Cached(rule, c, L, d') && d'[(i, j)] == Aux(rule, c, L, i, j)
  {
    assert Entry(rule, c, L, d, i + 1, 0);
    assert Entry(rule, c, L, d, i + 1, j + c[i] + Esp(j));
    CachedInsert(rule, c, L, d, i, j);
  }

  /** The state of the reconstruction walk before word `i`: the lines so
      far lay out the first `i` words, `j` is the width of the last line and
      `jp` the column at which its last word was placed, a key of the
      dictionary.  For positive lengths the closed lines plus `aux(i-1, jp)`
      account for the whole score. */
  ghost predicate Walk(rule: FitTest, c: seq<nat>, L: int, d: Cache, lines: Layout, i: nat, j: nat, jp: nat) {
    1 <= i <= |c| && |lines| > 0 && ShortWords(c, L)
    && IsPartition(lines, c[..i]) && j == Width(lines[|lines| - 1]) && (i - 1, jp) in d
    && (Positive(c) ==>
          j == jp + c[i - 1] + Esp(jp)
          && (jp == 0 <==> |lines[|lines| - 1]| == 1)
          && Admissible(rule, L, lines)
          && Aux(rule, c, L, 0, 0) == Cost(lines[..|lines| - 1], L) + Aux(rule, c, L, i - 1, jp))
  }

  lemma WalkStart(rule: FitTest, c: seq<nat>, L: int, d: Cache)
    requires |c| > 0 && Cached(rule, c, L, d) && (0, 0) in d
    ensures Walk(rule, c, L, d, [[c[0]]], 1, c[0], 0)
  {
    assert Flatten([[c[0]]]) == [c[0]] + Flatten([]);
    assert c[..1] == [c[0]];
    assert Sum([c[0]]) == c[0] + Sum([]);
    assert [[c[0]]][..0] == [];
  }

  /** Word `i` starts a new line: its key is not cached, or closing the last
      line here is strictly cheaper than continuing it. */
  lemma WalkBreak(rule: FitTest, c: seq<nat>, L: int, d: Cache, lines: Layout, i: nat, j: nat, jp: nat)
    requires Cached(rule, c, L, d) && Walk(rule, c, L, d, lines, i, j, jp) && i < |c| && (i, 0) in d
    requires (i, j) !in d || d[(i, j)] > d[(i, 0)] + Sq(L - j)
    ensures Walk(rule, c, L, d, lines + [[c[i]]], i + 1, c[i], 0)
  {
    var n := |lines| - 1;
    var last := lines[n];
    var lines' := lines + [[c[i]]];
    assert Entry(rule, c, L, d, i - 1, jp);
    assert Entry(rule, c, L, d, i, 0);
    assert c[..i + 1] == c[..i] + [c[i]];
    FlattenSnoc(lines, [c[i]]);
    assert lines'[..n + 1] == lines;
    assert Sum([c[i]]) == c[i] + Sum([]);
    if Positive(c) {
      if (i, j) in d {
        assert Entry(rule, c, L, d, i, j);
      }
      BreakValue(rule, c, L, i, j, jp);
      BreakScore(rule, c, L, lines, i, j, jp);
    }
  }

  /** The walk breaks exactly when `aux(i - 1, jp)` took its closing branch. */
  lemma BreakValue(rule: FitTest, c: seq<nat>, L: int, i: nat, j: nat, jp: nat)
    requires 0 < i < |c| && ShortWords(c, L) && j == jp + c[i - 1] + Esp(jp)
    requires !Fits(rule, c, L, i - 1, jp) || Aux(rule, c, L, i, j) > Aux(rule, c, L, i, 0) + Sq(L - j)
    ensures Aux(rule, c, L, i - 1, jp) == Aux(rule, c, L, i, 0) + Sq(L - j)
  {
  }

  /** The walk joins exactly when `aux(i - 1, jp)` took its continuing branch. */
  lemma JoinValue(rule: FitTest, c: seq<nat>, L: int, i: nat, j: nat, jp: nat)
    requires 0 < i < |c| && ShortWords(c, L) && Positive(c) && j == jp + c[i - 1] + Esp(jp)
    requires Entered(rule, c, L, i, j) && Aux(rule, c, L, i, j) <= Aux(rule, c, L, i, 0) + Sq(L - j)
    ensures Fits(rule, c, L, i - 1, jp) && Aux(rule, c, L, i - 1, jp) == Aux(rule, c, L, i, j)
  {
  }

  lemma BreakScore(rule: FitTest, c: seq<nat>, L: int, lines: Layout, i: nat, j: nat, jp: nat)
    requires 0 < i < |c| && ShortWords(c, L) && Positive(c) && |lines| > 0
    requires j == Width(lines[|lines| - 1]) && Admissible(rule, L, lines)
    requires Aux(rule, c, L, 0, 0) == Cost(lines[..|lines| - 1], L) + Aux(rule, c, L, i - 1, jp)
    requires Aux(rule, c, L, i - 1, jp) == Aux(rule, c, L, i, 0) + Sq(L - j)
    ensures var lines' := lines + [[c[i]]];
      Admissible(rule, L, lines')
      && Aux(rule, c, L, 0, 0) == Cost(lines'[..|lines|], L) + Aux(rule, c, L, i, 0)
  {
    var n := |lines| - 1;
    var last := lines[n];
    var lines' := lines + [[c[i]]];
    assert lines'[..n + 1] == lines;
    assert lines == lines[..n] + [last];
    CostAppend(lines[..n], [last], L);
    CostSingle(last, L);
    assert forall k :: 0 <= k < |lines'| ==> lines'[k] == if k < |lines| then lines[k] else [c[i]];
  }

  /** Word `i` joins the last line. */
  lemma WalkJoin(rule: FitTest, c: seq<nat>, L: int, d: Cache, lines: Layout, i: nat, j: nat, jp: nat)
    requires Cached(rule, c, L, d) && Walk(rule, c, L, d, lines, i, j, jp) && i < |c| && (i, 0) in d
    requires (i, j) in d && d[(i, j)] <= d[(i, 0)] + Sq(L - j)
    ensures var n := |lines| - 1;
      Walk(rule, c, L, d, lines[..n] + [lines[n] + [c[i]]], i + 1, j + c[i] + 1, j)
  {
    var n := |lines| - 1;
    JoinPartition(c, lines, i);
    if Positive(c) {
      JoinScore(rule, c, L, d, lines, i, j, jp);
    }
  }

  lemma JoinPartition(c: seq<nat>, lines: Layout, i: nat)
    requires i < |c| && |lines| > 0 && IsPartition(lines, c[..i])
    ensures var n := |lines| - 1; var lines' := lines[..n] + [lines[n] + [c[i]]];
      IsPartition(lines', c[..i + 1]) && lines'[..n] == lines[..n]
      && Width(lines'[n]) == Width(lines[n]) + c[i] + 1
      && |lines[n]| > 0 && |Flatten(lines[..n])| + |lines[n]| == i
      && lines[n][0] == c[|Flatten(lines[..n])|]
  {
    var n := |lines| - 1;
    var last := lines[n];
    var grown := last + [c[i]];
    var lines' := lines[..n] + [grown];
    assert lines == lines[..n] + [last];
    FlattenSnoc(lines[..n], last);
    FlattenSnoc(lines[..n], grown);
    assert c[..i + 1] == c[..i] + [c[i]];
    WidthSnoc(last, c[i]);
    assert lines'[..n] == lines[..n];
    assert c[..i][|Flatten(lines[..n])|] == last[0];
  }

  lemma JoinScore(rule: FitTest, c: seq<nat>, L: int, d: Cache, lines: Layout, i: nat, j: nat, jp: nat)
    requires Cached(rule, c, L, d) && Walk(rule, c, L, d, lines, i, j, jp) && i < |c| && Positive(c)
    requires (i, j) in d && (i, 0) in d && d[(i, j)] <= d[(i, 0)] + Sq(L - j)
    ensures var n := |lines| - 1; var lines' := lines[..n] + [lines[n] + [c[i]]];
      Admissible(rule, L, lines')
      && Aux(rule, c, L, 0, 0) == Cost(lines'[..n], L) + Aux(rule, c, L, i, j)
  {
    var n := |lines| - 1;
    var last := lines[n];
    var grown := last + [c[i]];
    var lines' := lines[..n] + [grown];
    assert lines'[..n] == lines[..n];
    assert Entry(rule, c, L, d, i, j);
    assert Entry(rule, c, L, d, i, 0);
    JoinValue(rule, c, L, i, j, jp);
    if |last| == 1 {
      JoinPartition(c, lines, i);
      assert |Flatten(lines[..n])| == i - 1 by {
        assert lines == lines[..n] + [last];
        FlattenSnoc(lines[..n], last);
      }
    }
    GrownLineOk(rule, c, L, i, jp, last);
    assert forall k :: 0 <= k < |lines'| ==> lines'[k] == if k < n then lines[k] else grown;
  }

  /** A line that passes the fit test stays admissible with the next word. */
  lemma GrownLineOk(rule: FitTest, c: seq<nat>, L: int, i: nat, jp: nat, last: Line)
    requires 0 < i < |c| && Fits(rule, c, L, i - 1, jp) && LineOk(rule, L, last) && |last| > 0
    requires Width(last) == jp + c[i - 1] + Esp(jp) && (jp == 0 <==> |last| == 1)
    requires |last| == 1 ==> last[0] == c[i - 1]
    ensures LineOk(rule, L, last + [c[i]])
  {
    var grown := last + [c[i]];
    WidthSnoc(last, c[i]);
    if jp == 0 {
      assert last == [last[0]];
      assert grown[..2] == [c[i - 1], c[i]];
      WidthCons(c[i - 1], [c[i]]);
      assert Sum([c[i]]) == c[i] + Sum([]);
    } else {
      assert grown[..2] == last[..2];
    }
  }

  lemma WalkKey(rule: FitTest, c: seq<nat>, L: int, d: Cache, lines: Layout, i: nat, j: nat, jp: nat)
    requires Cached(rule, c, L, d) && Walk(rule, c, L, d, lines, i, j, jp) && i < |c|
    ensures (i, 0) in d
  {
    assert Entry(rule, c, L, d, i - 1, jp);
  }

  lemma WalkEnd(rule: FitTest, c: seq<nat>, L: int, d: Cache, lines: Layout, j: nat, jp: nat)
    requires Walk(rule, c, L, d, lines, |c|, j, jp)
    ensures IsPartition(lines, c)
    ensures Positive(c) ==> Admissible(rule, L, lines) && Cost(lines, L) == Aux(rule, c, L, 0, 0)
  {
    assert c[..|c|] == c;
    if Positive(c) {
      EndScore(rule, c, L, lines, j, jp);
    }
  }

  /** The last line closes with the slack `aux` charges the last word. */
  lemma EndScore(rule: FitTest, c: seq<nat>, L: int, lines: Layout, j: nat, jp: nat)
    requires |c| > 0 && ShortWords(c, L) && |lines| > 0
    requires j == Width(lines[|lines| - 1]) && j == jp + c[|c| - 1] + Esp(jp)
    ensures Cost(lines, L) == Cost(lines[..|lines| - 1], L) + Aux(rule, c, L, |c| - 1, jp)
  {
    var n := |lines| - 1;
    AuxLast(rule, c, L, jp);
    assert L - jp - c[|c| - 1] - Esp(jp) == L - j;
    assert lines == lines[..n] + [lines[n]];
    CostAppend(lines[..n], [lines[n]], L);
    CostSingle(lines[n], L);
  }

  lemma AuxLast(rule: FitTest, c: seq<nat>, L: int, j: nat)
    requires |c| > 0 && ShortWords(c, L)
    ensures Aux(rule, c, L, |c| - 1, j) == Sq(L - j - c[|c| - 1] - Esp(j))
  {
  }

  /** The reconstruction loop: each word after the first either starts a new
      line or joins the last line, as `Place` decides. */
  method Rebuild(rule: FitTest, c: seq<nat>, L: int, d: Cache) returns (lines: Layout)
    requires |c| > 0 && Cached(rule, c, L, d) && (0, 0) in d
    ensures IsPartition(lines, c)
    ensures Positive(c) ==> Admissible(rule, L, lines) && Cost(lines, L) == Aux(rule, c, L, 0, 0)
  {
    lines := [[c[0]]];
    var i: nat := 1;
    var j: nat := c[0];
    ghost var jp: nat := 0;
    WalkStart(rule, c, L, d);
    while i < |c|
      invariant Walk(rule, c, L, d, lines, i, j, jp)
      decreases |c| - i
    {
      lines, j, jp := Place(rule, c, L, d, lines, i, j, jp);
      i := i + 1;
    }
    WalkEnd(rule, c, L, d, lines, j, jp);
  }

  /** One step of the walk: word `i` starts a new line when its key is not
      cached or when closing the line here is strictly cheaper; otherwise it
      joins the last line. */
  method Place(rule: FitTest, c: seq<nat>, L: int, d: Cache, lines: Layout, i: nat, j: nat, ghost jp: nat)
    returns (lines': Layout, j': nat, ghost jp': nat)
    requires Cached(rule, c, L, d) && Walk(rule, c, L, d, lines, i, j, jp) && i < |c|
    ensures lines' == lines + [[c[i]]] || lines' == lines[..|lines| - 1] + [lines[|lines| - 1] + [c[i]]]
    ensures |lines'| > 0 && j' == Width(lines'[|lines'| - 1])
    ensures Walk(rule, c, L, d, lines', i + 1, j', jp')
  {
    WalkKey(rule, c, L, d, lines, i, j, jp);
    if (i, j) !in d || d[(i, j)] > d[(i, 0)] + Sq(L - j) {
      WalkBreak(rule, c, L, d, lines, i, j, jp);
      lines', j', jp' := lines + [[c[i]]], c[i], 0;
    } else {
      WalkJoin(rule, c, L, d, lines, i, j, jp);
      var n := |lines| - 1;
      lines', j', jp' := lines[..n] + [lines[n] + [c[i]]], j + c[i] + 1, j;
    }
  }

  /** `mise_en_page_memoisation`, from the word lengths (the program splits on
      single spaces, so a word may be empty).  The assertion that every word
      fits in `L` fails, since every word is visited, exactly when some word
      is longer than `L`. */
  method Memoisation(rule: FitTest, c: seq<nat>, L: int) returns (r: Result<(Layout, nat)>)
    requires |c| > 0
    ensures r.Failure? <==> exists k :: 0 <= k < |c| && c[k] > L
    ensures r.Failure? ==> r.error == InfeasibleWord
    ensures r.Success? ==> IsPartition(r.value.0, c) && r.value.1 == Aux(rule, c, L, 0, 0)
    ensures r.Success? && Positive(c) ==>
      Admissible(rule, L, r.value.0) && r.value.1 == Cost(r.value.0, L)
    ensures r.Success? && Positive(c) ==>
      forall p :: IsPartition(p, c) && Admissible(rule, L, p) ==> r.value.1 <= Cost(p, L)
  {
    if exists k :: 0 <= k < |c| && c[k] > L {
      return Failure(InfeasibleWord);
    }
    var s, d := AuxMemo(rule, c, L, 0, 0, map[]);
    var lines := Rebuild(rule, c, L, d);
    r := Success((lines, s));
    if Positive(c) {
      forall p | IsPartition(p, c) && Admissible(rule, L, p)
        ensures s <= Cost(p, L)
      {
        AuxIsLeastCost(rule, c, L, p);
      }
    }
  }

  /** With an empty word at the start of a line the recurrence places the
      next word at column 0, as if it started the line, and charges no space
      in front of it, while any line holding both words has that space.  For
      the lengths [0, 1] and `L = 3`, `aux(0, 0)` is 4 under either fit test,
      but every layout of the two words costs 1 or 13; so the score that
      `Memoisation` returns is not the cost of the lines it returns. */
  lemma EmptyWordMiscounted(rule: FitTest, c: seq<nat>, L: int, p: Layout)
    requires c == [0, 1] && L == 3 && IsPartition(p, c)
    ensures ShortWords(c, L) && Aux(rule, c, L, 0, 0) == 4
    ensures Cost(p, L) == 1 || Cost(p, L) == 13
  {
    EmptyWordAux(rule, c, L);
    PartitionsOfTwo(p, 0, 1);
    if p == [[0, 1]] {
      OneLineCost(p, L);
    } else {
      TwoLinesCost(p, L);
    }
  }

  lemma EmptyWordAux(rule: FitTest, c: seq<nat>, L: int)
    requires c == [0, 1] && L == 3
    ensures ShortWords(c, L) && Aux(rule, c, L, 0, 0) == 4
  {
    assert Aux(rule, c, L, 1, 0) == 4;
    assert Fits(rule, c, L, 0, 0);
    assert Aux(rule, c, L, 0, 0) == Min(Aux(rule, c, L, 1, 0) + 9, Aux(rule, c, L, 1, 0));
  }

  lemma OneLineCost(p: Layout, L: int)
    requires p == [[0, 1]] && L == 3
    ensures Cost(p, L) == 1
  {
    assert Sum([0, 1]) == 0 + Sum([1]);
    assert Sum([1]) == 1 + Sum([]);
    assert p[1..] == [];
  }

  lemma TwoLinesCost(p: Layout, L: int)
    requires p == [[0], [1]] && L == 3
    ensures Cost(p, L) == 13
  {
    assert Sum([1]) == 1 + Sum([]);
    assert Sum([0]) == 0 + Sum([]);
    assert p[1..] == [[1]] && p[1..][1..] == [];
    assert Width([0]) == 0 && Width([1]) == 1;
    assert Cost(p[1..], L) == 4;
  }

  /** Two words are laid out either on one line or on two. */
  lemma PartitionsOfTwo(p: Layout, a: nat, b: nat)
    requires IsPartition(p, [a, b])
    ensures p == [[a, b]] || p == [[a], [b]]
  {
    var w := [a, b];
    PartitionTail(p, w);
    if |p[0]| == 2 {
      assert p[0] == w && w[2..] == [];
      NoLinesForNoWords(p[1..]);
      assert p == [p[0]] + p[1..];
    } else {
      assert |p[0]| == 1 && p[0] == [a] && w[1..] == [b];
      PartitionTail(p[1..], [b]);
      assert |p[1]| == 1 && p[1] == [b];
      assert [b][1..] == [];
      NoLinesForNoWords(p[2..]);
      assert p[1..][1..] == p[2..];
      assert p == [p[0], p[1]] + p[2..];
    }
  }

  /** `mise_en_page_memoisation` with the text split as the other solvers
      split it, on runs of whitespace, so that no word is empty.  An empty
      text, or one of blanks only, has no first word and fails. */
  method MemoisationWords(rule: FitTest, text: string, L: int) returns (r: Result<(Layout, nat)>)
    ensures var words := Render.Words(text);
      r.Failure? <==> |words| == 0 || exists k :: 0 <= k < |words| && |words[k]| > L
    ensures r.Failure? ==> (r.error == EmptyText <==> |Render.Words(text)| == 0)
    ensures var c := Render.Lengths(Render.Words(text));
      r.Success? ==>
        IsPartition(r.value.0, c) && Admissible(rule, L, r.value.0) && r.value.1 == Cost(r.value.0, L)
        && forall p :: IsPartition(p, c) && Admissible(rule, L, p) ==> r.value.1 <= Cost(p, L)
  {
    var words := Render.Words(text);
    if |words| == 0 {
      return Failure(EmptyText);
    }
    var c := Render.Lengths(words);
    Render.LengthsAt(words);
    assert Positive(c);
    assert (exists k :: 0 <= k < |c| && c[k] > L) <==> (exists k :: 0 <= k < |words| && |words[k]| > L) by {
      if exists k :: 0 <= k < |c| && c[k] > L {
        var k :| 0 <= k < |c| && c[k] > L;
        assert |words[k]| > L;
      }
    }
    r := Memoisation(rule, c, L);
  }

  /** As written, the fit test counts a space in front of the first word of
      a line: for the lengths [1, 1] and `L = 3` the two words are never put
      together and `aux(0, 0)` is 8, although the one-line layout of width 3
      costs 0.  With the corrected test `aux(0, 0)` is 0. */
  lemma LineStartPenalised()
    ensures !Fits(AsWritten, [1, 1], 3, 0, 0) && Aux(AsWritten, [1, 1], 3, 0, 0) == 8
    ensures Width([1, 1]) == 3 && Cost([[1, 1]], 3) == 0
    ensures Fits(Corrected, [1, 1], 3, 0, 0) && Aux(Corrected, [1, 1], 3, 0, 0) == 0
  {
    assert Sum([1]) == 1 + Sum([]);
    assert Sum([1, 1]) == 1 + Sum([1]);
    assert [[1, 1]][1..] == [];
    assert Aux(AsWritten, [1, 1], 3, 1, 0) == 4;
    assert Aux(Corrected, [1, 1], 3, 1, 1) == 0;
  }
}

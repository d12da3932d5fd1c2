/** The cost model shared by every solver.

    A word is represented by its length, a line by the sequence of the
    lengths of its words, and a layout by the sequence of its lines.  The
    content length (`Width`) of a line counts its words and one space between
    each pair of neighbours; a line of width `x` in a page of width `L` costs
    `(L - x)^2`.
 */
module Layouts {

  type Line = seq<nat>
  type Layout = seq<Line>

  datatype Option<T> = None | Some(value: T)

  /** The ways a solver of `main.py` fails instead of returning a layout. */
  datatype Error =
    | InfeasibleWord  // a word is longer than the page width
    | EmptyText       // there is no word at all

  datatype Result<T> = Success(value: T) | Failure(error: Error)

  /** The "infinite" sentinel of `main.py` is a separate constructor, so that
      all arithmetic stays on exact integers. */
  datatype Score = Finite(value: nat) | Infinite {

    /** `+` on scores: infinity absorbs everything. */
    function Plus(n: nat): Score {
      match this
      case Finite(v) => Finite(v + n)
      case Infinite => Infinite
    }

    /** Strict `<` on scores, with `inf < inf` false as in floating point. */
    predicate Below(other: Score) {
      match (this, other)
      case (Finite(a), Finite(b)) => a < b
      case (Finite(_), Infinite) => true
      case (Infinite, _) => false
    }

    /** `<=` on scores. */
    predicate AtMost(other: Score) {
      !other.Below(this)
    }
  }

  function Sq(x: int): nat {
    if x < 0 then (-x) * (-x) else x * x
  }

  function Sum(s: seq<nat>): nat {
    if |s| == 0 then 0 else s[0] + Sum(s[1..])
  }

  /** Content length of a line: word lengths plus one space between neighbours. */
  function Width(line: Line): int {
    Sum(line) + |line| - 1
  }

  /** The words of a layout, in order. */
  function Flatten(p: Layout): seq<nat> {
    if |p| == 0 then [] else p[0] + Flatten(p[1..])
  }

  /** `p` cuts `w` into non-empty consecutive lines, dropping, duplicating and
      reordering nothing. */
  predicate IsPartition(p: Layout, w: seq<nat>) {
    Flatten(p) == w && forall k :: 0 <= k < |p| ==> |p[k]| > 0
  }

  /** Sum over lines of the squared slack `(L - width)^2`. */
  function Cost(p: Layout, L: int): nat {
    if |p| == 0 then 0 else Sq(L - Width(p[0])) + Cost(p[1..], L)
  }

  /** Every line of two or more words fits in `L` columns; a single word may
      overflow.  This is what the greedy and exhaustive solvers admit. */
  predicate MultiWordFit(p: Layout, L: int) {
    forall k :: 0 <= k < |p| && |p[k]| >= 2 ==> Width(p[k]) <= L
  }

  /** Every line fits in `L` columns. */
  predicate AllFit(p: Layout, L: int) {
    forall k :: 0 <= k < |p| ==> Width(p[k]) <= L
  }

  /** Which fit test a solver uses: the one in the code, or the corrected
      test that compares the full content length with `L`. */
  datatype FitTest = AsWritten | Corrected

  function Reverse(s: seq<nat>): (r: seq<nat>)
    ensures |r| == |s|
  {
    if |s| == 0 then [] else [s[|s| - 1]] + Reverse(s[..|s| - 1])
  }

  /** Reads a layout built back to front (last line first, each line's words
      last first) in reading order. */
  function Forward(rows: Layout): (p: Layout)
    ensures |p| == |rows|
  {
    if |rows| == 0 then [] else Forward(rows[1..]) + [Reverse(rows[0])]
  }

  // ---------------------------------------------------------------------
  // Sums and widths

  lemma {:induction false} SumAppend(a: seq<nat>, b: seq<nat>)
    ensures Sum(a + b) == Sum(a) + Sum(b)
  {
    if |a| == 0 {
      assert a + b == b;
    } else {
      assert (a + b)[1..] == a[1..] + b;
      SumAppend(a[1..], b);
    }
  }

  lemma WidthSnoc(s: Line, x: nat)
    requires |s| > 0
    ensures Width(s + [x]) == Width(s) + 1 + x
  {
    SumAppend(s, [x]);
    assert Sum([x]) == x + Sum([]);
  }

  lemma WidthCons(x: nat, s: Line)
    requires |s| > 0
    ensures Width([x] + s) == x + 1 + Width(s)
  {
    assert ([x] + s)[1..] == s;
  }

  /** A word of a line is no longer than the line. */
  lemma {:induction false} ElementWithinSum(s: seq<nat>, k: int)
    requires 0 <= k < |s|
    ensures s[k] <= Sum(s)
  {
    if k > 0 {
      ElementWithinSum(s[1..], k - 1);
    }
  }

  /** Adding words to a line makes it wider by at least one column per word. */
  lemma PrefixWidth(s: Line, n: nat)
    requires 0 < n <= |s|
    ensures Width(s[..n]) + (|s| - n) <= Width(s)
  {
    assert s == s[..n] + s[n..];
    SumAppend(s[..n], s[n..]);
  }

  lemma {:induction false} ReverseAppend(a: seq<nat>, b: seq<nat>)
    ensures Reverse(a + b) == Reverse(b) + Reverse(a)
    decreases |b|
  {
    if |b| == 0 {
      assert a + b == a;
      assert Reverse(b) + Reverse(a) == Reverse(a);
    } else {
      var b' := b[..|b| - 1];
      assert (a + b)[..|a + b| - 1] == a + b';
      assert (a + b)[|a + b| - 1] == b[|b| - 1];
      ReverseAppend(a, b');
    }
  }

  lemma {:induction false} SumReverse(s: seq<nat>)
    ensures Sum(Reverse(s)) == Sum(s)
    decreases |s|
  {
    if |s| > 0 {
      var s' := s[..|s| - 1];
      assert s == s' + [s[|s| - 1]];
      SumReverse(s');
      SumAppend([s[|s| - 1]], Reverse(s'));
      SumAppend(s', [s[|s| - 1]]);
      assert Sum([s[|s| - 1]]) == s[|s| - 1] + Sum([]);
    }
  }

  lemma WidthReverse(s: Line)
    ensures Width(Reverse(s)) == Width(s)
  {
    SumReverse(s);
  }

  lemma {:induction false} ReverseReverse(s: seq<nat>)
    ensures Reverse(Reverse(s)) == s
    decreases |s|
  {
    if |s| > 0 {
      var s' := s[..|s| - 1];
      ReverseAppend([s[|s| - 1]], Reverse(s'));
      ReverseReverse(s');
      assert Reverse([s[|s| - 1]]) == [s[|s| - 1]];
      assert s == s' + [s[|s| - 1]];
    }
  }

  // ---------------------------------------------------------------------
  // Layouts

  lemma {:induction false} FlattenAppend(a: Layout, b: Layout)
    ensures Flatten(a + b) == Flatten(a) + Flatten(b)
  {
    if |a| == 0 {
      assert a + b == b;
    } else {
      assert (a + b)[1..] == a[1..] + b;
      FlattenAppend(a[1..], b);
    }
  }

  lemma FlattenSnoc(p: Layout, line: Line)
    ensures Flatten(p + [line]) == Flatten(p) + line
  {
    FlattenAppend(p, [line]);
    assert Flatten([line]) == line + Flatten([]);
  }

  lemma DropFront(f: seq<nat>, p: seq<nat>, a: seq<nat>, b: seq<nat>)
    requires f == p + a + b
    ensures f[|p|..] == a + b
  {
  }

  lemma FlattenLast(p: Layout)
    requires |p| > 0
    ensures Flatten(p) == Flatten(p[..|p| - 1]) + p[|p| - 1]
  {
    assert p == p[..|p| - 1] + [p[|p| - 1]];
    FlattenSnoc(p[..|p| - 1], p[|p| - 1]);
  }

  lemma {:induction false} CostAppend(a: Layout, b: Layout, L: int)
    ensures Cost(a + b, L) == Cost(a, L) + Cost(b, L)
  {
    if |a| == 0 {
      assert a + b == b;
    } else {
      assert (a + b)[1..] == a[1..] + b;
      CostAppend(a[1..], b, L);
    }
  }

  lemma CostSingle(line: Line, L: int)
    ensures Cost([line], L) == Sq(L - Width(line))
  {
    assert [line][1..] == [];
  }

  /** Cutting a partition after its first line leaves a partition of the rest. */
  lemma PartitionTail(p: Layout, w: seq<nat>)
    requires IsPartition(p, w) && |p| > 0
    ensures |p[0]| <= |w| && p[0] == w[..|p[0]|]
    ensures IsPartition(p[1..], w[|p[0]|..])
  {
    assert w == p[0] + Flatten(p[1..]);
    assert w[|p[0]|..] == Flatten(p[1..]);
  }

  lemma NoLinesForNoWords(p: Layout)
    requires IsPartition(p, [])
    ensures p == []
  {
  }

  lemma PartitionCons(line: Line, p: Layout, w: seq<nat>)
    requires |line| > 0 && IsPartition(p, w)
    ensures IsPartition([line] + p, line + w)
  {
    assert ([line] + p)[1..] == p;
  }

  /** Every word of a partitioned sequence lies in some line. */
  lemma {:induction false} WordInSomeLine(p: Layout, w: seq<nat>, k: int) returns (m: int, q: int)
    requires IsPartition(p, w) && 0 <= k < |w|
    ensures 0 <= m < |p| && 0 <= q < |p[m]| && p[m][q] == w[k]
  {
    PartitionTail(p, w);
    if k < |p[0]| {
      m, q := 0, k;
    } else {
      var m', q' := WordInSomeLine(p[1..], w[|p[0]|..], k - |p[0]|);
      m, q := m' + 1, q';
    }
  }

  /** Every word of a line is a word of the partitioned sequence. */
  lemma {:induction false} LineWordInInput(p: Layout, w: seq<nat>, m: int, q: int) returns (k: int)
    requires IsPartition(p, w) && 0 <= m < |p| && 0 <= q < |p[m]|
    ensures 0 <= k < |w| && w[k] == p[m][q]
  {
    PartitionTail(p, w);
    if m == 0 {
      k := q;
    } else {
      var k' := LineWordInInput(p[1..], w[|p[0]|..], m - 1, q);
      k := k' + |p[0]|;
    }
  }

  /** Under `MultiWordFit`, a line wider than `L` exists exactly when a word
      longer than `L` does. */
  lemma OverflowIsLongWord(p: Layout, w: seq<nat>, L: int)
    requires IsPartition(p, w) && MultiWordFit(p, L)
    ensures (exists m :: 0 <= m < |p| && Width(p[m]) > L)
        <==> (exists k :: 0 <= k < |w| && w[k] > L)
  {
    if m :| 0 <= m < |p| && Width(p[m]) > L {
      assert |p[m]| == 1;
      var k := LineWordInInput(p, w, m, 0);
      assert Sum(p[m]) == p[m][0] + Sum(p[m][1..]);
    }
    if k :| 0 <= k < |w| && w[k] > L {
      var m, q := WordInSomeLine(p, w, k);
      ElementWithinSum(p[m], q);
    }
  }

  /** The all-fit layouts are the multi-word-fit layouts of short words. */
  lemma AllFitIffShortWords(p: Layout, w: seq<nat>, L: int)
    requires IsPartition(p, w)
    ensures AllFit(p, L) <==> MultiWordFit(p, L) && forall k :: 0 <= k < |w| ==> w[k] <= L
  {
    if AllFit(p, L) {
      forall k | 0 <= k < |w|
        ensures w[k] <= L
      {
        var m, q := WordInSomeLine(p, w, k);
        ElementWithinSum(p[m], q);
      }
    }
    if MultiWordFit(p, L) && forall k :: 0 <= k < |w| ==> w[k] <= L {
      forall m | 0 <= m < |p|
        ensures Width(p[m]) <= L
      {
        if |p[m]| == 1 {
          var k := LineWordInInput(p, w, m, 0);
          assert Sum(p[m]) == p[m][0] + Sum(p[m][1..]);
        }
      }
    }
  }

  /** The layout with every word on its own line. */
  function Singletons(w: seq<nat>): (p: Layout)
    ensures IsPartition(p, w)
    ensures |p| == |w| && forall k :: 0 <= k < |p| ==> p[k] == [w[k]]
  {
    if |w| == 0 then [] else [[w[0]]] + Singletons(w[1..])
  }

  // ---------------------------------------------------------------------
  // Reading a back-to-front layout forward

  lemma {:induction false} ForwardAppend(a: Layout, b: Layout)
    ensures Forward(a + b) == Forward(b) + Forward(a)
  {
    if |a| == 0 {
      assert a + b == b;
    } else {
      assert (a + b)[1..] == a[1..] + b;
      ForwardAppend(a[1..], b);
    }
  }

  lemma {:induction false} FlattenForward(rows: Layout)
    ensures Flatten(Forward(rows)) == Reverse(Flatten(rows))
  {
    if |rows| > 0 {
      FlattenForward(rows[1..]);
      FlattenAppend(Forward(rows[1..]), [Reverse(rows[0])]);
      assert Flatten([Reverse(rows[0])]) == Reverse(rows[0]);
      ReverseAppend(rows[0], Flatten(rows[1..]));
    }
  }

  lemma {:induction false} ForwardLines(rows: Layout)
    ensures forall k :: 0 <= k < |rows| ==> Forward(rows)[k] == Reverse(rows[|rows| - 1 - k])
  {
    if |rows| > 0 {
      ForwardLines(rows[1..]);
    }
  }

  lemma ForwardForward(p: Layout)
    ensures Forward(Forward(p)) == p
  {
    ForwardLines(p);
    ForwardLines(Forward(p));
    forall k | 0 <= k < |p|
      ensures Forward(Forward(p))[k] == p[k]
    {
      ReverseReverse(p[k]);
    }
  }

  lemma {:induction false} CostForward(rows: Layout, L: int)
    ensures Cost(Forward(rows), L) == Cost(rows, L)
  {
    if |rows| > 0 {
      CostForward(rows[1..], L);
      CostAppend(Forward(rows[1..]), [Reverse(rows[0])], L);
      CostSingle(Reverse(rows[0]), L);
      WidthReverse(rows[0]);
    }
  }

  /** Line `k` read forward is the row `|rows| - 1 - k`, reversed. */
  lemma ForwardLine(rows: Layout, k: int)
    requires 0 <= k < |rows|
    ensures |Forward(rows)[k]| == |rows[|rows| - 1 - k]|
    ensures Width(Forward(rows)[k]) == Width(rows[|rows| - 1 - k])
  {
    ForwardLines(rows);
    WidthReverse(rows[|rows| - 1 - k]);
  }

  /** Reading forward keeps every line's word count and width. */
  lemma ForwardKeepsShape(rows: Layout, L: int)
    ensures (forall k :: 0 <= k < |rows| ==> |rows[k]| > 0)
        <==> (forall k :: 0 <= k < |rows| ==> |Forward(rows)[k]| > 0)
    ensures MultiWordFit(rows, L) <==> MultiWordFit(Forward(rows), L)
  {
    var f := Forward(rows);
    var n := |rows|;
    if MultiWordFit(f, L) {
      forall k | 0 <= k < n && |rows[k]| >= 2
        ensures Width(rows[k]) <= L
      {
        ForwardLine(rows, n - 1 - k);
      }
    }
    if MultiWordFit(rows, L) {
      forall k | 0 <= k < n && |f[k]| >= 2
        ensures Width(f[k]) <= L
      {
        ForwardLine(rows, k);
      }
    }
    if forall k :: 0 <= k < n ==> |f[k]| > 0 {
      forall k | 0 <= k < n
        ensures |rows[k]| > 0
      {
        ForwardLine(rows, n - 1 - k);
      }
    }
    if forall k :: 0 <= k < n ==> |rows[k]| > 0 {
      forall k | 0 <= k < n
        ensures |f[k]| > 0
      {
        ForwardLine(rows, k);
      }
    }
  }

  // ---------------------------------------------------------------------
  // `get_error`, `evaluation`

  /** The sum `Σ (len(word) + 1)` that `get_error` computes per line. */
  function SumSucc(line: Line): nat {
    if |line| == 0 then 0 else line[0] + 1 + SumSucc(line[1..])
  }

  /** The score as `get_error` computes it: `Σ (L - Σ (len + 1) + 1)^2`. */
  function GetError(t: Layout, L: int): nat {
    if |t| == 0 then 0 else Sq(L - SumSucc(t[0]) + 1) + GetError(t[1..], L)
  }

  lemma {:induction false} SumSuccIsSumPlusCount(line: Line)
    ensures SumSucc(line) == Sum(line) + |line|
  {
    if |line| > 0 {
      SumSuccIsSumPlusCount(line[1..]);
    }
  }

  /** `get_error` is the layout cost: per line, `(L - width)^2`. */
  lemma {:induction false} GetErrorIsCost(t: Layout, L: int)
    ensures GetError(t, L) == Cost(t, L)
  {
    if |t| > 0 {
      SumSuccIsSumPlusCount(t[0]);
      GetErrorIsCost(t[1..], L);
    }
  }

  /** `evaluation`: accumulates `(L - width)^2` line by line and gives up with
      the infinite sentinel at the first line wider than `L`. */
  method Evaluation(lines: Layout, L: int) returns (s: Score)
    ensures s == Infinite <==> exists k :: 0 <= k < |lines| && Width(lines[k]) > L
    ensures s.Finite? ==> s.value == Cost(lines, L)
  {
    var total: nat := 0;
    var i := 0;
    while i < |lines|
      invariant 0 <= i <= |lines|
      invariant total == Cost(lines[..i], L)
      invariant forall k :: 0 <= k < i ==> Width(lines[k]) <= L
    {
      total := total + Sq(L - Width(lines[i]));
      if L < Width(lines[i]) {
        return Infinite;
      }
      assert lines[..i + 1] == lines[..i] + [lines[i]];
      CostAppend(lines[..i], [lines[i]], L);
      CostSingle(lines[i], L);
      i := i + 1;
    }
    assert lines[..i] == lines;
    s := Finite(total);
  }
}

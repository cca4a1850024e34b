/**
 * The depth-first search of the naive solver over an explicit stack of
 * grids: one transition (`Step`), the search that repeats it until a grid is
 * solved (`SolveGrid`, `Solve`) and the sequence of grids the generator
 * variant yields (`SolveGridGenerator`).
 *
 * Termination: a grid with k empty cells weighs 10^k and a stack weighs the
 * sum of its grids. Dropping or returning a grid removes a term; branching
 * replaces 10^k by at most nine grids of at most 10^(k-1) each.
 */
module Search {
  import opened Cells
  import opened Constraints

  datatype Option<T> = None | Some(value: T)

  /**
   * The derived grid for digit `n`: every cell at the coordinates of `e` is
   * filtered out and a copy of `e` numbered `n` is pushed at the end.
   */
  function Assign(g: Grid, e: Cell, n: int): Grid {
    WithoutPosition(g, e) + [e.(number := n)]
  }

  /**
   * In a grid with one cell per coordinate pair, the derived grid differs from
   * its parent only in the chosen cell, which now carries `n` and sits at the end.
   */
  lemma AssignMovesCellToEnd(g: Grid, i: nat, n: int)
    requires DistinctPositions(g) && i < |g|
    ensures Assign(g, g[i], n) == g[..i] + g[i + 1..] + [g[i].(number := n)]
    ensures |Assign(g, g[i], n)| == |g|
  {
    WithoutPositionRemovesOne(g, i);
  }

  /**
   * In a grid with one cell per coordinate pair, the derived grid has as many
   * cells, the same coordinates, still one cell per coordinate pair, and
   * holds the parent's cells at other coordinates and the renumbered cell.
   */
  lemma AssignKeepsPositions(g: Grid, e: Cell, n: int)
    requires DistinctPositions(g) && e in g
    ensures |Assign(g, e, n)| == |g|
    ensures DistinctPositions(Assign(g, e, n))
    ensures PositionSet(Assign(g, e, n)) == PositionSet(g)
    ensures forall c :: c in Assign(g, e, n) <==> (c in g && !SamePosition(c, e)) || c == e.(number := n)
  {
    var i :| 0 <= i < |g| && g[i] == e;
    var m := e.(number := n);
    AssignMovesCellToEnd(g, i, n);
    WithoutPositionMembers(g, e);
    var p := g[..i] + g[i + 1..];
    var r := p + [m];
    assert Assign(g, e, n) == r;
    forall a, b | 0 <= a < b < |r| ensures !SamePosition(r[a], r[b]) {
      var ia := if a < i then a else a + 1;
      assert r[a] == p[a] == g[ia];
      if b < |p| {
        var ib := if b < i then b else b + 1;
        assert r[b] == p[b] == g[ib];
      } else if ia < i {
        assert !SamePosition(g[ia], g[i]);
      } else {
        assert !SamePosition(g[i], g[ia]);
      }
    }
    forall q | q in PositionSet(r) ensures q in PositionSet(g) {
      var c :| c in r && Position(c) == q;
      if c == m {
        assert Position(e) == q;
      }
    }
    forall q | q in PositionSet(g) ensures q in PositionSet(r) {
      var c :| c in g && Position(c) == q;
      if SamePosition(c, e) {
        assert m in r && Position(m) == q;
      } else {
        assert c in r;
      }
    }
  }

  /** The nine derived grids for the digits 1..9, in that order. */
  function Candidates(g: Grid, e: Cell): seq<Grid> {
    seq(9, i requires 0 <= i < 9 => Assign(g, e, i + 1))
  }

  /**
   * In a grid with one cell per coordinate pair, the i-th derived grid has
   * the parent's length and coordinates, still one cell per coordinate pair,
   * holds every parent cell except the chosen one, and ends with the chosen
   * cell carrying the digit i + 1.
   */
  lemma CandidatesShape(g: Grid, e: Cell)
    requires DistinctPositions(g) && e in g
    ensures forall i :: 0 <= i < 9 ==>
              && |Candidates(g, e)[i]| == |g|
              && PositionSet(Candidates(g, e)[i]) == PositionSet(g)
              && DistinctPositions(Candidates(g, e)[i])
              && Candidates(g, e)[i][|g| - 1] == e.(number := i + 1)
              && (forall c :: c in Candidates(g, e)[i] <==> (c in g && !SamePosition(c, e)) || c == e.(number := i + 1))
  {
    forall i | 0 <= i < 9
      ensures && |Candidates(g, e)[i]| == |g|
              && PositionSet(Candidates(g, e)[i]) == PositionSet(g)
              && DistinctPositions(Candidates(g, e)[i])
              && Candidates(g, e)[i][|g| - 1] == e.(number := i + 1)
              && (forall c :: c in Candidates(g, e)[i] <==> (c in g && !SamePosition(c, e)) || c == e.(number := i + 1))
    {
      AssignKeepsPositions(g, e, i + 1);
    }
  }

  /** The grids of `s` that pass `keep`, order kept. */
  function Filter(s: seq<Grid>, keep: Grid -> bool): (r: seq<Grid>)
    ensures |r| <= |s|
  {
    if s == [] then []
    else (if keep(s[0]) then [s[0]] else []) + Filter(s[1..], keep)
  }

  /** A grid survives the filter exactly when it was there and passes `keep`. */
  lemma {:induction false} FilterMembers(s: seq<Grid>, keep: Grid -> bool)
    ensures forall h :: h in Filter(s, keep) <==> h in s && keep(h)
  {
    if s != [] {
      FilterMembers(s[1..], keep);
      assert s == [s[0]] + s[1..];
    }
  }

  /**
   * The consistent grids derived from `g` at its minimum-remaining-value
   * cell, ascending digit first.
   */
  function Branch(g: Grid): (r: seq<Grid>)
    requires exists c :: c in g && !Numbered(c)
    ensures |r| <= 9
  {
    Filter(Candidates(g, GetMinimumRemainingValue(g)), EveryFieldIsCorrect)
  }

  /**
   * A grid is branched to exactly when it is consistent and is `g` with the
   * minimum-remaining-value cell set to one of the digits 1..9.
   */
  lemma BranchMembers(g: Grid, h: Grid)
    requires exists c :: c in g && !Numbered(c)
    ensures h in Branch(g) <==>
              EveryFieldIsCorrect(h) && exists n :: 1 <= n <= 9 && h == Assign(g, GetMinimumRemainingValue(g), n)
  {
    var e := GetMinimumRemainingValue(g);
    var cs := Candidates(g, e);
    FilterMembers(cs, EveryFieldIsCorrect);
    if h in cs {
      var i :| 0 <= i < 9 && cs[i] == h;
      assert h == Assign(g, e, i + 1);
    }
    if exists n :: 1 <= n <= 9 && h == Assign(g, e, n) {
      var n :| 1 <= n <= 9 && h == Assign(g, e, n);
      assert cs[n - 1] == h;
    }
  }

  /**
   * A derived grid differs from its parent only in the chosen cell: that
   * cell, now holding a digit 1..9, moves to the end and every other cell
   * keeps its place, so the length and the coordinates are those of the parent.
   */
  lemma BranchGridShape(g: Grid, h: Grid)
    requires DistinctPositions(g) && exists c :: c in g && !Numbered(c)
    requires h in Branch(g)
    ensures exists i, n :: 0 <= i < |g| && g[i] == GetMinimumRemainingValue(g) && 1 <= n <= 9 &&
              h == g[..i] + g[i + 1..] + [g[i].(number := n)]
  {
    BranchMembers(g, h);
    var e := GetMinimumRemainingValue(g);
    var n :| 1 <= n <= 9 && h == Assign(g, e, n);
    var i :| 0 <= i < |g| && g[i] == e;
    AssignMovesCellToEnd(g, i, n);
  }

  /** The digit a derived grid tried: the number of its last cell. */
  function LastDigit(h: Grid): int {
    if h == [] then NoNumber else h[|h| - 1].number
  }

  /** In an ascending sequence, the tail is ascending and lies above the head. */
  lemma AscendingTail(s: seq<Grid>)
    requires s != [] && forall i, j :: 0 <= i < j < |s| ==> LastDigit(s[i]) < LastDigit(s[j])
    ensures forall i, j :: 0 <= i < j < |s[1..]| ==> LastDigit(s[1..][i]) < LastDigit(s[1..][j])
    ensures forall h :: h in s[1..] ==> LastDigit(s[0]) < LastDigit(h)
  {
    var t := s[1..];
    forall i, j | 0 <= i < j < |t| ensures LastDigit(t[i]) < LastDigit(t[j]) {
      assert t[i] == s[i + 1] && t[j] == s[j + 1];
    }
    forall h | h in t ensures LastDigit(s[0]) < LastDigit(h) {
      var k :| 0 <= k < |t| && t[k] == h;
      assert s[k + 1] == h;
    }
  }

  /** Filtering keeps the order of what it keeps. */
  lemma {:induction false} FilterKeepsOrder(s: seq<Grid>, keep: Grid -> bool)
    requires forall i, j :: 0 <= i < j < |s| ==> LastDigit(s[i]) < LastDigit(s[j])
    ensures forall i, j :: 0 <= i < j < |Filter(s, keep)| ==>
              LastDigit(Filter(s, keep)[i]) < LastDigit(Filter(s, keep)[j])
  {
    if s != [] {
      var t := s[1..];
      AscendingTail(s);
      FilterKeepsOrder(t, keep);
      FilterMembers(t, keep);
      var rest := Filter(t, keep);
      if keep(s[0]) {
        var r := [s[0]] + rest;
        forall i, j | 0 <= i < j < |r| ensures LastDigit(r[i]) < LastDigit(r[j]) {
          assert r[j] == rest[j - 1] && rest[j - 1] in t;
          if i > 0 {
            assert r[i] == rest[i - 1];
          }
        }
      }
    }
  }

  /** The kept derived grids come in ascending order of the digit they tried. */
  lemma FilteredCandidatesAscending(g: Grid, e: Cell, keep: Grid -> bool)
    ensures forall i, j :: 0 <= i < j < |Filter(Candidates(g, e), keep)| ==>
              LastDigit(Filter(Candidates(g, e), keep)[i]) < LastDigit(Filter(Candidates(g, e), keep)[j])
  {
    var cs := Candidates(g, e);
    forall i | 0 <= i < |cs| ensures LastDigit(cs[i]) == i + 1 {
      assert cs[i] == WithoutPosition(g, e) + [e.(number := i + 1)];
    }
    FilterKeepsOrder(cs, keep);
  }

  /** The consistent derived grids are pushed ascending digit first. */
  lemma BranchAscending(g: Grid)
    requires exists c :: c in g && !Numbered(c)
    ensures forall i, j :: 0 <= i < j < |Branch(g)| ==> LastDigit(Branch(g)[i]) < LastDigit(Branch(g)[j])
  {
    FilteredCandidatesAscending(g, GetMinimumRemainingValue(g), EveryFieldIsCorrect);
  }

  function Pow10(k: nat): (p: nat)
    ensures p >= 1
  {
    if k == 0 then 1 else 10 * Pow10(k - 1)
  }

  lemma {:induction false} Pow10Monotonic(a: nat, b: nat)
    requires a <= b
    ensures Pow10(a) <= Pow10(b)
  {
    if a < b {
      Pow10Monotonic(a, b - 1);
    }
  }

  /** The search-space bound of a stack: the sum of 10^(empty cells) over its grids. */
  function Measure(stack: seq<Grid>): nat {
    if stack == [] then 0 else Pow10(EmptyCount(stack[0])) + Measure(stack[1..])
  }

  lemma {:induction false} MeasureAppend(a: seq<Grid>, b: seq<Grid>)
    ensures Measure(a + b) == Measure(a) + Measure(b)
  {
    if a == [] {
      assert a + b == b;
    } else {
      MeasureAppend(a[1..], b);
      assert (a + b)[1..] == a[1..] + b;
    }
  }

  lemma {:induction false} EmptyCountAppend(a: Grid, b: Grid)
    ensures EmptyCount(a + b) == EmptyCount(a) + EmptyCount(b)
  {
    if a == [] {
      assert a + b == b;
    } else {
      EmptyCountAppend(a[1..], b);
      assert (a + b)[1..] == a[1..] + b;
    }
  }

  /** Filling an empty cell with a digit leaves fewer empty cells. */
  lemma AssignFillsOne(g: Grid, e: Cell, n: int)
    requires e in g && !Numbered(e) && n != NoNumber
    ensures EmptyCount(Assign(g, e, n)) < EmptyCount(g)
  {
    EmptyCountWithout(g, e);
    EmptyCountAppend(WithoutPosition(g, e), [e.(number := n)]);
  }

  /** `n` copies of `p` added up, kept apart from multiplication so the bounds stay linear. */
  function Times(n: nat, p: nat): nat {
    if n == 0 then 0 else p + Times(n - 1, p)
  }

  lemma NineTimesBelowPow10(k: nat)
    requires k >= 1
    ensures Times(9, Pow10(k - 1)) < Pow10(k)
  {
    NineTimesBelowTen(Pow10(k - 1));
  }

  lemma {:induction false} NineTimesBelowTen(p: nat)
    requires p >= 1
    ensures Times(9, p) < 10 * p
  {
    assert Times(9, p) == 9 * p by {
      assert Times(0, p) == 0;
      assert Times(1, p) == p;
      assert Times(2, p) == 2 * p;
      assert Times(3, p) == 3 * p;
      assert Times(4, p) == 4 * p;
      assert Times(5, p) == 5 * p;
      assert Times(6, p) == 6 * p;
      assert Times(7, p) == 7 * p;
      assert Times(8, p) == 8 * p;
    }
  }

  /** Filtering never adds weight. */
  lemma {:induction false} FilterMeasure(s: seq<Grid>, keep: Grid -> bool)
    ensures Measure(Filter(s, keep)) <= Measure(s)
  {
    if s != [] {
      FilterMeasure(s[1..], keep);
      MeasureAppend(if keep(s[0]) then [s[0]] else [], Filter(s[1..], keep));
      if keep(s[0]) {
        assert Measure([s[0]]) == Pow10(EmptyCount(s[0]));
      }
    }
  }

  /** A stack whose grids each weigh at most `p` weighs at most `|s|` times `p`. */
  lemma {:induction false} MeasureAtMost(s: seq<Grid>, p: nat)
    requires forall i :: 0 <= i < |s| ==> Pow10(EmptyCount(s[i])) <= p
    ensures Measure(s) <= Times(|s|, p)
  {
    if s != [] {
      MeasureAtMost(s[1..], p);
    }
  }

  /** The nine derived grids at an empty cell weigh at most 9 * 10^(k-1) < 10^k together. */
  lemma CandidatesMeasure(g: Grid, e: Cell)
    requires e in g && !Numbered(e)
    ensures EmptyCount(g) >= 1
    ensures Measure(Candidates(g, e)) < Pow10(EmptyCount(g))
  {
    EmptyCellCounted(g, e);
    var k := EmptyCount(g);
    var cs := Candidates(g, e);
    forall i | 0 <= i < |cs| ensures Pow10(EmptyCount(cs[i])) <= Pow10(k - 1) {
      AssignFillsOne(g, e, i + 1);
      Pow10Monotonic(EmptyCount(cs[i]), k - 1);
    }
    MeasureAtMost(cs, Pow10(k - 1));
    NineTimesBelowPow10(k);
  }

  /**
   * Keeping some of the nine derived grids at an empty cell leaves less
   * weight than the grid had: 9 * 10^(k-1) < 10^k.
   */
  lemma FilteredCandidatesMeasure(g: Grid, e: Cell, keep: Grid -> bool)
    requires e in g && !Numbered(e)
    ensures EmptyCount(g) >= 1
    ensures Measure(Filter(Candidates(g, e), keep)) < Pow10(EmptyCount(g))
  {
    CandidatesMeasure(g, e);
    FilterMeasure(Candidates(g, e), keep);
  }

  /** Branching replaces a grid with k empty cells by grids weighing less than 10^k together. */
  lemma BranchMeasure(g: Grid)
    requires exists c :: c in g && !Numbered(c)
    ensures EmptyCount(g) >= 1
    ensures Measure(Branch(g)) < Pow10(EmptyCount(g))
  {
    FilteredCandidatesMeasure(g, GetMinimumRemainingValue(g), EveryFieldIsCorrect);
  }

  datatype Outcome = Solved(grid: Grid) | Continue(stack: seq<Grid>)

  predicate IsSolved(g: Grid) {
    EveryFieldIsFilledWithANumber(g) && EveryFieldIsCorrect(g)
  }

  predicate SolvedAt(t: seq<Grid>, i: nat)
    requires i < |t|
  {
    IsSolved(t[i])
  }

  /**
   * One transition of the search on a non-empty stack: return the head when
   * it is full and consistent, drop it when it is inconsistent, and otherwise
   * put its consistent derived grids in front of the rest of the stack.
   */
  function Step(stack: seq<Grid>): (o: Outcome)
    requires stack != []
    ensures o.Solved? <==> IsSolved(stack[0])
    ensures o.Solved? ==> o.grid == stack[0]
    ensures o.Continue? ==> Measure(o.stack) < Measure(stack)
  {
    var g, rest := stack[0], stack[1..];
    var filled := EveryFieldIsFilledWithANumber(g);
    var correct := EveryFieldIsCorrect(g);
    if filled && correct then Solved(g)
    else if !correct then Continue(rest)
    else
      EveryFieldIsFilledIff(g);
      var next := Branch(g);
      BranchMeasure(g);
      MeasureAppend(next, rest);
      if next == [] then Continue(rest) else Continue(next + rest)
  }

  /**
   * A stack that goes on holds the consistent derived grids of the head, when
   * the head is consistent, in front of the rest of the old stack.
   */
  lemma StepShape(stack: seq<Grid>)
    requires stack != [] && Step(stack).Continue?
    ensures EveryFieldIsCorrect(stack[0]) ==> exists c :: c in stack[0] && !Numbered(c)
    ensures Step(stack).stack ==
              (if EveryFieldIsCorrect(stack[0]) then Branch(stack[0]) else []) + stack[1..]
  {
    EveryFieldIsFilledIff(stack[0]);
  }

  /**
   * The search. An empty stack yields `None`: the source has no such result
   * and fails on the missing grid instead.
   */
  function SolveGrid(stack: seq<Grid>): (r: Option<Grid>)
    decreases Measure(stack)
    ensures r.Some? ==> IsSolved(r.value)
  {
    if stack == [] then None
    else
      match Step(stack)
      case Solved(g) => Some(g)
      case Continue(next) => SolveGrid(next)
  }

  function Solve(g: Grid): (r: Option<Grid>)
    ensures r.Some? ==> EveryFieldIsFilledWithANumber(r.value) && NoClash(r.value)
  {
    var r := SolveGrid([g]);
    if r.Some? then EveryFieldIsCorrectIff(r.value); r else r
  }

  /** The grids the generator yields, in order: the head of every stack it visits. */
  function SolveGridGenerator(stack: seq<Grid>): (yielded: seq<Grid>)
    decreases Measure(stack)
    ensures stack == [] <==> yielded == []
    ensures stack != [] ==> yielded[0] == stack[0]
  {
    if stack == [] then []
    else
      [stack[0]] + match Step(stack)
        case Solved(_) => []
        case Continue(next) => SolveGridGenerator(next)
  }

  /** Putting an unsolved grid in front keeps every grid but the last unsolved. */
  lemma UnsolvedPrefix(h: Grid, u: seq<Grid>)
    requires !IsSolved(h)
    requires forall i :: 0 <= i < |u| - 1 ==> !SolvedAt(u, i)
    ensures forall i :: 0 <= i < |u| ==> !SolvedAt([h] + u, i)
  {
    forall i | 0 < i < |u| ensures !SolvedAt([h] + u, i) {
      assert ([h] + u)[i] == u[i - 1] && !SolvedAt(u, i - 1);
    }
  }

  /** The generator stops at the first solved grid: no grid before the last one is solved. */
  lemma {:induction false} GeneratorStopsAtSolved(stack: seq<Grid>)
    decreases Measure(stack)
    ensures forall i :: 0 <= i < |SolveGridGenerator(stack)| - 1 ==> !SolvedAt(SolveGridGenerator(stack), i)
  {
    if stack != [] {
      var o := Step(stack);
      if o.Continue? {
        GeneratorStopsAtSolved(o.stack);
        UnsolvedPrefix(stack[0], SolveGridGenerator(o.stack));
      }
    }
  }

  /**
   * The search returns the last grid the generator yields when that grid is
   * solved, and nothing when it is not.
   */
  lemma {:induction false} GeneratorMatchesSolve(stack: seq<Grid>)
    decreases Measure(stack)
    ensures var t := SolveGridGenerator(stack);
      SolveGrid(stack) == if t != [] && IsSolved(t[|t| - 1]) then Some(t[|t| - 1]) else None
  {
    if stack != [] {
      var t := SolveGridGenerator(stack);
      var o := Step(stack);
      if o.Solved? {
        assert t == [stack[0]];
      } else {
        GeneratorMatchesSolve(o.stack);
        var u := SolveGridGenerator(o.stack);
        assert t == [stack[0]] + u;
        if u != [] {
          assert t[|t| - 1] == u[|u| - 1];
        }
      }
    }
  }

  /**
   * Pruning: every grid the search visits is either one it was given or a
   * consistent derived grid.
   */
  lemma {:induction false} VisitedAreGivenOrConsistent(stack: seq<Grid>)
    decreases Measure(stack)
    ensures forall h :: h in SolveGridGenerator(stack) ==> h in stack || EveryFieldIsCorrect(h)
  {
    if stack != [] {
      match Step(stack)
      case Solved(_) =>
      case Continue(next) =>
        VisitedAreGivenOrConsistent(next);
        StepShape(stack);
        forall h | h in next ensures h in stack || EveryFieldIsCorrect(h) {
          var g := stack[0];
          if EveryFieldIsCorrect(g) && h in Branch(g) {
            BranchMembers(g, h);
          } else {
            assert h in stack[1..];
          }
        }
    }
  }
}

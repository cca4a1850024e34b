/**
 * What the search guarantees. A grid it returns is a solution of the grid it
 * was given: full, consistent, and the given grid with only its empty cells
 * filled in. And when the given grid has a solution at all, the search
 * returns one: pruning inconsistent grids and branching at the
 * minimum-remaining-value cell lose nothing.
 */
module SearchCorrectness {
  import opened Cells
  import opened Constraints
  import opened Search

  /**
   * `h` is `g` with some of its empty cells filled in: as many cells, the
   * same coordinates, one cell per coordinate pair, numbers empty or 1..9,
   * and every numbered cell of `g` unchanged.
   */
  ghost predicate Extends(h: Grid, g: Grid) {
    && |h| == |g|
    && DistinctPositions(h)
    && PositionSet(h) == PositionSet(g)
    && NumbersInRange(h)
    && (forall c :: c in g && Numbered(c) ==> c in h)
  }

  /** A solution of `g`: `g` filled in completely without a clash. */
  ghost predicate IsSolution(s: Grid, g: Grid) {
    Extends(s, g) && (forall c :: c in s ==> Numbered(c)) && NoClash(s)
  }

  /** Filling an empty cell of an extension with a digit gives an extension. */
  lemma AssignExtends(h: Grid, g: Grid, e: Cell, n: int)
    requires Extends(h, g) && e in h && !Numbered(e) && 1 <= n <= 9
    ensures Extends(Assign(h, e, n), g)
  {
    AssignKeepsPositions(h, e, n);
  }

  /**
   * One step of the search keeps every grid on the stack an extension of the
   * given grid: the derived grids only fill the empty cell the step chose.
   */
  lemma StepExtends(stack: seq<Grid>, g: Grid)
    requires stack != [] && Step(stack).Continue?
    requires forall h :: h in stack ==> Extends(h, g)
    ensures forall h :: h in Step(stack).stack ==> Extends(h, g)
  {
    StepShape(stack);
    var head := stack[0];
    forall h | h in Step(stack).stack ensures Extends(h, g) {
      if EveryFieldIsCorrect(head) && h in Branch(head) {
        BranchMembers(head, h);
        var n :| 1 <= n <= 9 && h == Assign(head, GetMinimumRemainingValue(head), n);
        AssignExtends(head, g, GetMinimumRemainingValue(head), n);
      } else {
        assert h in stack[1..];
      }
    }
  }

  lemma {:induction false} SolveGridExtends(stack: seq<Grid>, g: Grid)
    requires forall h :: h in stack ==> Extends(h, g)
    decreases Measure(stack)
    ensures SolveGrid(stack).Some? ==> Extends(SolveGrid(stack).value, g)
  {
    if stack != [] {
      var o := Step(stack);
      if o.Continue? {
        StepExtends(stack, g);
        SolveGridExtends(o.stack, g);
      }
    }
  }

  /**
   * Soundness: a grid the solver returns is a solution of the given grid;
   * in particular every digit the caller entered is still there.
   */
  lemma SolveIsSound(g: Grid)
    requires WellFormed(g)
    ensures Solve(g).Some? ==> IsSolution(Solve(g).value, g)
  {
    SolveGridExtends([g], g);
    if Solve(g).Some? {
      EveryFieldIsFilledIff(Solve(g).value);
    }
  }

  /**
   * A grid whose numbered cells all appear in a clash-free grid has no clash
   * itself.
   */
  lemma NoClashInherited(h: Grid, s: Grid)
    requires DistinctPositions(h) && NoClash(s)
    requires forall c :: c in h && Numbered(c) ==> c in s
    ensures NoClash(h)
  {
    forall i, j | 0 <= i < |h| && 0 <= j < |h| && i != j && Numbered(h[i]) && h[i].number == h[j].number
      ensures !Peers(h[i], h[j])
    {
      if i < j {
        assert !SamePosition(h[i], h[j]);
      } else {
        assert !SamePosition(h[j], h[i]);
      }
      var a :| 0 <= a < |s| && s[a] == h[i];
      assert Numbered(h[j]) && h[j] in s;
      var b :| 0 <= b < |s| && s[b] == h[j];
    }
  }

  /**
   * A grid on the way to a solution: the solution extends it and it has one
   * cell per coordinate pair.
   */
  ghost predicate Towards(h: Grid, s: Grid) {
    DistinctPositions(h) && Extends(s, h) && (forall c :: c in s ==> Numbered(c)) && NoClash(s)
  }

  /**
   * A grid on the way to a solution that is not itself solved has a derived
   * grid on the way to the same solution: the one that writes the solution's
   * digit into the chosen cell.
   */
  lemma BranchTowards(h: Grid, s: Grid)
    requires Towards(h, s) && !IsSolved(h)
    ensures EveryFieldIsCorrect(h) && exists c :: c in h && !Numbered(c)
    ensures exists h' :: h' in Branch(h) && Towards(h', s)
  {
    NoClashInherited(h, s);
    EveryFieldIsCorrectIff(h);
    EveryFieldIsFilledIff(h);
    var e := GetMinimumRemainingValue(h);
    assert Position(e) in PositionSet(s);
    var d :| d in s && Position(d) == Position(e);
    var h' := Assign(h, e, d.number);
    AssignKeepsPositions(h, e, d.number);
    assert d == e.(number := d.number);
    assert Towards(h', s);
    NoClashInherited(h', s);
    EveryFieldIsCorrectIff(h');
    BranchMembers(h, h');
  }

  /** One step keeps some grid on the way to the solution on the stack, or stops. */
  lemma StepTowards(stack: seq<Grid>, s: Grid, h: Grid)
    requires h in stack && Towards(h, s) && Step(stack).Continue?
    ensures exists h' :: h' in Step(stack).stack && Towards(h', s)
  {
    StepShape(stack);
    if h in stack[1..] {
      assert h in Step(stack).stack;
    } else {
      assert h == stack[0];
      BranchTowards(h, s);
      var h' :| h' in Branch(h) && Towards(h', s);
      assert h' in Step(stack).stack;
    }
  }

  /** While a grid on the way to a solution is on the stack, the search finds a grid. */
  lemma {:induction false} SolveGridFinds(stack: seq<Grid>, s: Grid, h: Grid)
    requires h in stack && Towards(h, s)
    decreases Measure(stack)
    ensures SolveGrid(stack).Some?
  {
    var o := Step(stack);
    if o.Continue? {
      StepTowards(stack, s, h);
      var h' :| h' in o.stack && Towards(h', s);
      SolveGridFinds(o.stack, s, h');
    }
  }

  /**
   * Completeness: when the given grid has a solution, the solver returns a
   * grid (which, by soundness, is a solution too, though not necessarily the
   * same one).
   */
  lemma SolveIsComplete(g: Grid, s: Grid)
    requires DistinctPositions(g) && IsSolution(s, g)
    ensures Solve(g).Some?
  {
    SolveGridFinds([g], s, g);
  }
}

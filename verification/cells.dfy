/**
 * The grid model shared by the solver: a cell is a coordinate pair and a
 * number, where 0 stands for "no number" (the source treats every falsy
 * number as empty). A grid is an ordered sequence of cells; nothing forces it
 * to hold 81 cells or distinct coordinates, so the predicates that need those
 * facts say so.
 */
module Cells {

  datatype Cell = Cell(x: int, y: int, number: int)

  type Grid = seq<Cell>

  /** The number the source writes as `undefined`. */
  const NoNumber: int := 0

  predicate Numbered(c: Cell) {
    c.number != NoNumber
  }

  /** The source calls the cells that share `x` a row. */
  predicate SameRow(a: Cell, b: Cell) {
    a.x == b.x
  }

  /** The source calls the cells that share `y` a column. */
  predicate SameColumn(a: Cell, b: Cell) {
    a.y == b.y
  }

  /**
   * The 3x3 square a cell lies in. Dafny's `/` rounds toward negative
   * infinity for a positive divisor, as `Math.floor(x / 3)` does.
   */
  function Square(c: Cell): (int, int) {
    (c.x / 3, c.y / 3)
  }

  predicate SameSquare(a: Cell, b: Cell) {
    Square(a) == Square(b)
  }

  /** Two cells constrain each other when they share a row, a column or a square. */
  predicate Peers(a: Cell, b: Cell) {
    SameRow(a, b) || SameColumn(a, b) || SameSquare(a, b)
  }

  /** Cells are identified by their `x-y` key, that is, by their coordinates. */
  predicate SamePosition(a: Cell, b: Cell) {
    a.x == b.x && a.y == b.y
  }

  function Position(c: Cell): (int, int) {
    (c.x, c.y)
  }

  function CellNumber(c: Cell): int {
    c.number
  }

  ghost function PositionSet(g: Grid): set<(int, int)> {
    set c | c in g :: Position(c)
  }

  ghost predicate DistinctPositions(g: Grid) {
    forall i, j :: 0 <= i < j < |g| ==> !SamePosition(g[i], g[j])
  }

  /** Every number is empty or a digit 1..9. */
  ghost predicate NumbersInRange(g: Grid) {
    forall c :: c in g ==> 0 <= c.number <= 9
  }

  /** What the solver's callers hand in: one cell per coordinate, digits 1..9 or empty. */
  ghost predicate WellFormed(g: Grid) {
    DistinctPositions(g) && NumbersInRange(g)
  }

  /** The number of cells without a number. */
  function EmptyCount(g: Grid): (n: nat)
    ensures n <= |g|
  {
    if g == [] then 0
    else (if Numbered(g[0]) then 0 else 1) + EmptyCount(g[1..])
  }

  /** No cell is counted exactly when every cell carries a number. */
  lemma {:induction false} EmptyCountZero(g: Grid)
    ensures EmptyCount(g) == 0 <==> forall c :: c in g ==> Numbered(c)
  {
    if g != [] {
      EmptyCountZero(g[1..]);
      assert g == [g[0]] + g[1..];
    }
  }

  /** A grid holding an empty cell counts at least one. */
  lemma EmptyCellCounted(g: Grid, e: Cell)
    requires e in g && !Numbered(e)
    ensures EmptyCount(g) >= 1
  {
    EmptyCountZero(g);
  }

  /** `g` with every cell at the coordinates of `p` removed, order kept. */
  function WithoutPosition(g: Grid, p: Cell): (r: Grid)
    ensures |r| <= |g|
  {
    if g == [] then []
    else if SamePosition(g[0], p) then WithoutPosition(g[1..], p)
    else [g[0]] + WithoutPosition(g[1..], p)
  }

  /** Exactly the cells away from the position of `p` remain. */
  lemma {:induction false} WithoutPositionMembers(g: Grid, p: Cell)
    ensures forall c :: c in WithoutPosition(g, p) <==> c in g && !SamePosition(c, p)
  {
    if g != [] {
      WithoutPositionMembers(g[1..], p);
      assert g == [g[0]] + g[1..];
    }
  }

  lemma {:induction false} WithoutAbsentPosition(g: Grid, p: Cell)
    requires forall c :: c in g ==> !SamePosition(c, p)
    ensures WithoutPosition(g, p) == g
  {
    if g != [] {
      WithoutAbsentPosition(g[1..], p);
      assert g == [g[0]] + g[1..];
    }
  }

  /**
   * In a grid with distinct coordinates, removing a cell's position removes
   * exactly that one cell and keeps the order of the others.
   */
  lemma {:induction false} WithoutPositionRemovesOne(g: Grid, i: nat)
    requires DistinctPositions(g) && i < |g|
    ensures WithoutPosition(g, g[i]) == g[..i] + g[i + 1..]
  {
    var t := g[1..];
    assert DistinctPositions(t) by {
      forall a, b | 0 <= a < b < |t| ensures !SamePosition(t[a], t[b]) {
        assert t[a] == g[a + 1] && t[b] == g[b + 1];
      }
    }
    if i == 0 {
      forall c | c in t ensures !SamePosition(c, g[0]) {
        var k :| 0 <= k < |t| && t[k] == c;
        assert g[k + 1] == c;
      }
      WithoutAbsentPosition(t, g[0]);
      assert g[..0] + g[1..] == t;
    } else {
      assert !SamePosition(g[0], g[i]);
      WithoutPositionRemovesOne(t, i - 1);
      assert t[i - 1] == g[i];
      assert g[..i] + g[i + 1..] == [g[0]] + (t[..i - 1] + t[i..]);
    }
  }

  lemma {:induction false} EmptyCountWithout(g: Grid, p: Cell)
    ensures EmptyCount(WithoutPosition(g, p)) <= EmptyCount(g)
    ensures (exists c :: c in g && SamePosition(c, p) && !Numbered(c)) ==>
              EmptyCount(WithoutPosition(g, p)) < EmptyCount(g)
  {
    if g != [] {
      EmptyCountWithout(g[1..], p);
      if exists c :: c in g && SamePosition(c, p) && !Numbered(c) {
        var c :| c in g && SamePosition(c, p) && !Numbered(c);
        if c != g[0] {
          assert c in g[1..];
        }
      }
    }
  }
}

/**
 * The constraint checker of the naive solver: which numbered cells share a
 * row, a column or a square with a cell, which of them repeat a number,
 * whether a grid is full and whether it is consistent, and the
 * minimum-remaining-value choice of the next cell to fill.
 */
module Constraints {
  import opened Cells

  /** The three constraints of a sudoku. */
  datatype Group = RowGroup | ColumnGroup | SquareGroup

  predicate InGroup(k: Group, c: Cell, d: Cell) {
    match k
    case RowGroup => SameRow(d, c)
    case ColumnGroup => SameColumn(d, c)
    case SquareGroup => SameSquare(d, c)
  }

  /** The numbered cells of `g` in group `k` of `c`, in grid order. */
  function NumberedIn(g: Grid, k: Group, c: Cell): Grid {
    if g == [] then []
    else (if Numbered(g[0]) && InGroup(k, c, g[0]) then [g[0]] else []) + NumberedIn(g[1..], k, c)
  }

  /** The group holds exactly the numbered cells of `g` in group `k` of `c`. */
  lemma {:induction false} NumberedInMembers(g: Grid, k: Group, c: Cell)
    ensures forall d :: d in NumberedIn(g, k, c) <==> d in g && Numbered(d) && InGroup(k, c, d)
  {
    if g != [] {
      NumberedInMembers(g[1..], k, c);
      assert g == [g[0]] + g[1..];
    }
  }

  /** The group keeps every qualifying cell as often as the grid holds it, and nothing else. */
  lemma {:induction false} NumberedInExact(g: Grid, k: Group, c: Cell)
    ensures forall d :: multiset(NumberedIn(g, k, c))[d] ==
              if Numbered(d) && InGroup(k, c, d) then multiset(g)[d] else 0
  {
    if g != [] {
      NumberedInExact(g[1..], k, c);
      assert g == [g[0]] + g[1..];
    }
  }

  function CheckRow(g: Grid, c: Cell): Grid {
    NumberedIn(g, RowGroup, c)
  }

  function CheckColumn(g: Grid, c: Cell): Grid {
    NumberedIn(g, ColumnGroup, c)
  }

  /**
   * The source finds the square by looking `c` up in the grid's groups, and
   * fails when `c` is not one of the grid's cells; the model finds it by
   * coordinates.
   */
  function CheckSquare(g: Grid, c: Cell): Grid
    requires c in g
  {
    NumberedIn(g, SquareGroup, c)
  }

  /**
   * The row, the column and the square of `c` hold exactly the numbered cells
   * of `g` that share its `x`, its `y`, and both coordinates divided by three.
   */
  lemma CheckGroupsMembers(g: Grid, c: Cell)
    requires c in g
    ensures forall d :: d in CheckRow(g, c) <==> d in g && Numbered(d) && d.x == c.x
    ensures forall d :: d in CheckColumn(g, c) <==> d in g && Numbered(d) && d.y == c.y
    ensures forall d :: d in CheckSquare(g, c) <==> d in g && Numbered(d) && d.x / 3 == c.x / 3 && d.y / 3 == c.y / 3
  {
    NumberedInMembers(g, RowGroup, c);
    NumberedInMembers(g, ColumnGroup, c);
    NumberedInMembers(g, SquareGroup, c);
  }

  /** How many cells of `s` carry the number `n`. */
  function CountNumber(s: Grid, n: int): nat {
    if s == [] then 0
    else (if s[0].number == n then 1 else 0) + CountNumber(s[1..], n)
  }

  /** The cells of `s` whose number occurs more than once in `all`, in order. */
  function KeepShared(s: Grid, all: Grid): Grid {
    if s == [] then []
    else (if CountNumber(all, s[0].number) > 1 then [s[0]] else []) + KeepShared(s[1..], all)
  }

  lemma {:induction false} KeepSharedMembers(s: Grid, all: Grid)
    ensures forall d :: d in KeepShared(s, all) <==> d in s && CountNumber(all, d.number) > 1
  {
    if s != [] {
      KeepSharedMembers(s[1..], all);
      assert s == [s[0]] + s[1..];
    }
  }

  lemma {:induction false} KeepSharedExact(s: Grid, all: Grid)
    ensures forall d :: multiset(KeepShared(s, all))[d] ==
              if CountNumber(all, d.number) > 1 then multiset(s)[d] else 0
  {
    if s != [] {
      KeepSharedExact(s[1..], all);
      assert s == [s[0]] + s[1..];
    }
  }

  /** The cells of `s` whose number occurs more than once in `s`. */
  function Duplicates(s: Grid): Grid {
    KeepShared(s, s)
  }

  /** A cell is kept exactly when its number occurs at least twice in the group. */
  lemma DuplicatesMembers(s: Grid)
    ensures forall d :: d in Duplicates(s) <==> d in s && CountNumber(s, d.number) > 1
  {
    KeepSharedMembers(s, s);
  }

  /** The duplicates are a sub-multiset of the group: each kept cell keeps its multiplicity. */
  lemma DuplicatesExact(s: Grid)
    ensures forall d :: multiset(Duplicates(s))[d] == if CountNumber(s, d.number) > 1 then multiset(s)[d] else 0
    ensures multiset(Duplicates(s)) <= multiset(s)
  {
    KeepSharedExact(s, s);
  }

  lemma {:induction false} CountAtLeastOne(s: Grid, n: int)
    ensures CountNumber(s, n) >= 1 <==> exists i :: 0 <= i < |s| && s[i].number == n
  {
    if s != [] {
      CountAtLeastOne(s[1..], n);
      if exists i :: 0 <= i < |s| && s[i].number == n {
        var i :| 0 <= i < |s| && s[i].number == n;
        if i > 0 {
          assert s[1..][i - 1].number == n;
        }
      }
      if exists i :: 0 <= i < |s[1..]| && s[1..][i].number == n {
        var i :| 0 <= i < |s[1..]| && s[1..][i].number == n;
        assert s[i + 1].number == n;
      }
    }
  }

  /** Two cells carrying `n` are both counted. */
  lemma {:induction false} PairCounted(s: Grid, n: int, i: nat, j: nat)
    requires i < j < |s| && s[i].number == n && s[j].number == n
    ensures CountNumber(s, n) >= 2
  {
    var t := s[1..];
    assert t[j - 1] == s[j];
    if i == 0 {
      CountAtLeastOne(t, n);
    } else {
      assert t[i - 1] == s[i];
      PairCounted(t, n, i - 1, j - 1);
    }
  }

  /** A count of two or more comes from two different cells. */
  lemma {:induction false} CountedPair(s: Grid, n: int)
    requires CountNumber(s, n) >= 2
    ensures exists i, j :: 0 <= i < j < |s| && s[i].number == n && s[j].number == n
  {
    var t := s[1..];
    if s[0].number == n {
      CountAtLeastOne(t, n);
      var j :| 0 <= j < |t| && t[j].number == n;
      assert s[j + 1].number == n;
    } else {
      CountedPair(t, n);
      var i, j :| 0 <= i < j < |t| && t[i].number == n && t[j].number == n;
      assert s[i + 1].number == n && s[j + 1].number == n;
    }
  }

  /** A number occurs at least twice exactly when two different cells carry it. */
  lemma CountAtLeastTwo(s: Grid, n: int)
    ensures CountNumber(s, n) >= 2 <==>
              exists i, j :: 0 <= i < j < |s| && s[i].number == n && s[j].number == n
  {
    if CountNumber(s, n) >= 2 {
      CountedPair(s, n);
    }
    if exists i, j :: 0 <= i < j < |s| && s[i].number == n && s[j].number == n {
      var i, j :| 0 <= i < j < |s| && s[i].number == n && s[j].number == n;
      PairCounted(s, n, i, j);
    }
  }

  /**
   * A cell is among the duplicates exactly when another cell of the group
   * carries its number.
   */
  lemma DuplicatesAreShared(s: Grid, i: nat)
    requires i < |s|
    ensures s[i] in Duplicates(s) <==> exists j :: 0 <= j < |s| && j != i && s[j].number == s[i].number
  {
    var n := s[i].number;
    CountAtLeastTwo(s, n);
    DuplicatesMembers(s);
    if exists j :: 0 <= j < |s| && j != i && s[j].number == n {
      var j :| 0 <= j < |s| && j != i && s[j].number == n;
      if i < j {
        assert 0 <= i < j < |s| && s[i].number == n && s[j].number == n;
      } else {
        assert 0 <= j < i < |s| && s[j].number == n && s[i].number == n;
      }
    }
  }

  /** The carriers of `n` in group `k` of `c`. */
  predicate Carries(k: Group, c: Cell, n: int, d: Cell) {
    Numbered(d) && InGroup(k, c, d) && d.number == n
  }

  /** Counting the carriers of `n` in a group, one grid cell at a time. */
  lemma GroupCountStep(g: Grid, k: Group, c: Cell, n: int)
    requires g != []
    ensures CountNumber(NumberedIn(g, k, c), n) ==
              (if Carries(k, c, n, g[0]) then 1 else 0) + CountNumber(NumberedIn(g[1..], k, c), n)
  {
    var rest := NumberedIn(g[1..], k, c);
    if Numbered(g[0]) && InGroup(k, c, g[0]) {
      assert NumberedIn(g, k, c) == [g[0]] + rest;
      assert ([g[0]] + rest)[1..] == rest;
    } else {
      assert NumberedIn(g, k, c) == rest;
    }
  }

  lemma {:induction false} GroupCountAtLeastOne(g: Grid, k: Group, c: Cell, n: int)
    ensures CountNumber(NumberedIn(g, k, c), n) >= 1 <==>
              exists i :: 0 <= i < |g| && Carries(k, c, n, g[i])
  {
    if g != [] {
      var t := g[1..];
      GroupCountStep(g, k, c, n);
      GroupCountAtLeastOne(t, k, c, n);
      if exists i :: 0 <= i < |g| && Carries(k, c, n, g[i]) {
        var i :| 0 <= i < |g| && Carries(k, c, n, g[i]);
        if i > 0 {
          assert Carries(k, c, n, t[i - 1]);
        }
      }
      if exists i :: 0 <= i < |t| && Carries(k, c, n, t[i]) {
        var i :| 0 <= i < |t| && Carries(k, c, n, t[i]);
        assert g[i + 1] == t[i];
      }
    }
  }

  /** Two carriers of `n` in the grid make the group count `n` at least twice. */
  lemma {:induction false} GroupPairCounted(g: Grid, k: Group, c: Cell, n: int, i: nat, j: nat)
    requires i < j < |g| && Carries(k, c, n, g[i]) && Carries(k, c, n, g[j])
    ensures CountNumber(NumberedIn(g, k, c), n) >= 2
  {
    var t := g[1..];
    GroupCountStep(g, k, c, n);
    assert t[j - 1] == g[j];
    if i == 0 {
      GroupCountAtLeastOne(t, k, c, n);
    } else {
      assert t[i - 1] == g[i];
      GroupPairCounted(t, k, c, n, i - 1, j - 1);
    }
  }

  /** A group count of two or more comes from two different carriers in the grid. */
  lemma {:induction false} GroupCountedPair(g: Grid, k: Group, c: Cell, n: int)
    requires CountNumber(NumberedIn(g, k, c), n) >= 2
    ensures exists i, j :: 0 <= i < j < |g| && Carries(k, c, n, g[i]) && Carries(k, c, n, g[j])
  {
    var t := g[1..];
    GroupCountStep(g, k, c, n);
    if Carries(k, c, n, g[0]) {
      GroupCountAtLeastOne(t, k, c, n);
      var j :| 0 <= j < |t| && Carries(k, c, n, t[j]);
      assert g[j + 1] == t[j];
    } else {
      GroupCountedPair(t, k, c, n);
      var i, j :| 0 <= i < j < |t| && Carries(k, c, n, t[i]) && Carries(k, c, n, t[j]);
      assert g[i + 1] == t[i] && g[j + 1] == t[j];
    }
  }

  /** Group `k` of `c` repeats `n` exactly when two cells of `g` in that group carry `n`. */
  lemma GroupCountAtLeastTwo(g: Grid, k: Group, c: Cell, n: int)
    ensures CountNumber(NumberedIn(g, k, c), n) >= 2 <==>
              exists i, j :: 0 <= i < j < |g| && Carries(k, c, n, g[i]) && Carries(k, c, n, g[j])
  {
    if CountNumber(NumberedIn(g, k, c), n) >= 2 {
      GroupCountedPair(g, k, c, n);
    }
    if exists i, j :: 0 <= i < j < |g| && Carries(k, c, n, g[i]) && Carries(k, c, n, g[j]) {
      var i, j :| 0 <= i < j < |g| && Carries(k, c, n, g[i]) && Carries(k, c, n, g[j]);
      GroupPairCounted(g, k, c, n, i, j);
    }
  }

  ghost function Keys<K>(s: Grid, key: Cell -> K): set<K> {
    set d | d in s :: key(d)
  }

  /** lodash's `uniqBy`: the first cell of `s` for each key not in `seen`, in order. */
  function UniqFrom<K(==)>(s: Grid, key: Cell -> K, seen: set<K>): Grid {
    if s == [] then []
    else if key(s[0]) in seen then UniqFrom(s[1..], key, seen)
    else [s[0]] + UniqFrom(s[1..], key, seen + {key(s[0])})
  }

  /**
   * The kept cells come from `s` and carry keys outside `seen`, no key is kept
   * twice, and every key of `s` outside `seen` is kept.
   */
  lemma {:induction false} UniqFromSpec<K>(s: Grid, key: Cell -> K, seen: set<K>)
    ensures var r := UniqFrom(s, key, seen);
      && (forall d :: d in r ==> d in s && key(d) !in seen)
      && (forall i, j :: 0 <= i < j < |r| ==> key(r[i]) != key(r[j]))
      && Keys(r, key) == Keys(s, key) - seen
  {
    if s != [] {
      assert s == [s[0]] + s[1..];
      if key(s[0]) in seen {
        UniqFromSpec(s[1..], key, seen);
      } else {
        var rest := UniqFrom(s[1..], key, seen + {key(s[0])});
        UniqFromSpec(s[1..], key, seen + {key(s[0])});
        assert Keys([s[0]] + rest, key) == {key(s[0])} + Keys(rest, key);
        assert Keys(s, key) == {key(s[0])} + Keys(s[1..], key);
      }
    }
  }

  function UniqBy<K(==)>(s: Grid, key: Cell -> K): Grid {
    UniqFrom(s, key, {})
  }

  /** `uniqBy` keeps cells of `s`, one per key, and loses no key. */
  lemma UniqBySpec<K>(s: Grid, key: Cell -> K)
    ensures var r := UniqBy(s, key);
      && (forall d :: d in r ==> d in s)
      && (forall i, j :: 0 <= i < j < |r| ==> key(r[i]) != key(r[j]))
      && Keys(r, key) == Keys(s, key)
  {
    UniqFromSpec(s, key, {});
  }

  lemma KeysCons<K>(s: Grid, key: Cell -> K)
    requires s != []
    ensures Keys(s, key) == {key(s[0])} + Keys(s[1..], key)
  {
    assert s == [s[0]] + s[1..];
  }

  /** With pairwise different keys, the first key does not come back in the tail. */
  lemma HeadKeyFresh<K>(s: Grid, key: Cell -> K)
    requires s != [] && forall i, j :: 0 <= i < j < |s| ==> key(s[i]) != key(s[j])
    ensures key(s[0]) !in Keys(s[1..], key)
    ensures forall i, j :: 0 <= i < j < |s[1..]| ==> key(s[1..][i]) != key(s[1..][j])
  {
    var t := s[1..];
    forall d | d in t ensures key(d) != key(s[0]) {
      var j :| 0 <= j < |t| && t[j] == d;
      assert s[j + 1] == d;
    }
    forall i, j | 0 <= i < j < |t| ensures key(t[i]) != key(t[j]) {
      assert t[i] == s[i + 1] && t[j] == s[j + 1];
    }
  }

  /** Pairwise different keys are as many as the cells. */
  lemma {:induction false} DistinctKeysCount<K>(s: Grid, key: Cell -> K)
    requires forall i, j :: 0 <= i < j < |s| ==> key(s[i]) != key(s[j])
    ensures |Keys(s, key)| == |s|
  {
    if s != [] {
      HeadKeyFresh(s, key);
      DistinctKeysCount(s[1..], key);
      KeysCons(s, key);
    }
  }

  /** `d` repeats a number inside group `k` of `c`. */
  ghost predicate ConflictIn(g: Grid, k: Group, c: Cell, d: Cell) {
    Numbered(d) && InGroup(k, c, d) && CountNumber(NumberedIn(g, k, c), d.number) > 1
  }

  ghost predicate Conflicting(g: Grid, c: Cell, d: Cell) {
    ConflictIn(g, RowGroup, c, d) || ConflictIn(g, ColumnGroup, c, d) || ConflictIn(g, SquareGroup, c, d)
  }

  /**
   * The cells that repeat a number in the row, the column or the square of
   * `c`, one per coordinate pair.
   */
  function CheckCellForDuplicates(g: Grid, c: Cell): Grid
    requires c in g
  {
    var row := Duplicates(CheckRow(g, c));
    var column := Duplicates(CheckColumn(g, c));
    var square := Duplicates(CheckSquare(g, c));
    UniqBy(row + column + square, Position)
  }

  /**
   * The result holds one cell per coordinate pair, only cells of `g` that
   * repeat a number in a group of `c`, and the coordinates of every such cell.
   */
  lemma CheckCellForDuplicatesSpec(g: Grid, c: Cell)
    requires c in g
    ensures var r := CheckCellForDuplicates(g, c);
      && (forall i, j :: 0 <= i < j < |r| ==> !SamePosition(r[i], r[j]))
      && (forall d :: d in r ==> d in g && Conflicting(g, c, d))
      && (forall d :: d in g && Conflicting(g, c, d) ==> Position(d) in PositionSet(r))
  {
    var row := Duplicates(CheckRow(g, c));
    var column := Duplicates(CheckColumn(g, c));
    var square := Duplicates(CheckSquare(g, c));
    var all := row + column + square;
    var r := UniqBy(all, Position);
    UniqBySpec(all, Position);
    NumberedInMembers(g, RowGroup, c);
    NumberedInMembers(g, ColumnGroup, c);
    NumberedInMembers(g, SquareGroup, c);
    DuplicatesMembers(CheckRow(g, c));
    DuplicatesMembers(CheckColumn(g, c));
    DuplicatesMembers(CheckSquare(g, c));
    forall d | d in g && Conflicting(g, c, d) ensures Position(d) in PositionSet(r) {
      assert d in all;
      assert Position(d) in Keys(all, Position);
      assert Position(d) in Keys(r, Position);
    }
  }

  /** No two different cells of the grid with the same number constrain each other. */
  ghost predicate NoClash(g: Grid) {
    forall i, j :: 0 <= i < |g| && 0 <= j < |g| && i != j && Numbered(g[i]) && g[i].number == g[j].number ==>
      !Peers(g[i], g[j])
  }

  lemma NoClashNoConflicts(g: Grid, c: Cell)
    requires NoClash(g) && c in g
    ensures |CheckCellForDuplicates(g, c)| == 0
  {
    var r := CheckCellForDuplicates(g, c);
    CheckCellForDuplicatesSpec(g, c);
    if r != [] {
      var d := r[0];
      assert d in r;
      var k := if ConflictIn(g, RowGroup, c, d) then RowGroup
               else if ConflictIn(g, ColumnGroup, c, d) then ColumnGroup else SquareGroup;
      var n := d.number;
      assert ConflictIn(g, k, c, d);
      GroupCountAtLeastTwo(g, k, c, n);
      assert false;
    }
  }

  lemma ClashConflicts(g: Grid, i: nat, j: nat)
    requires i < |g| && j < |g| && i != j && Numbered(g[i]) && g[i].number == g[j].number
    requires Peers(g[i], g[j])
    ensures |CheckCellForDuplicates(g, g[i])| != 0
  {
    var c := g[i];
    var k := if SameRow(g[i], g[j]) then RowGroup else if SameColumn(g[i], g[j]) then ColumnGroup else SquareGroup;
    assert Carries(k, c, c.number, g[i]) && Carries(k, c, c.number, g[j]);
    GroupCountAtLeastTwo(g, k, c, c.number);
    if i < j {
      assert 0 <= i < j < |g| && Carries(k, c, c.number, g[i]) && Carries(k, c, c.number, g[j]);
    } else {
      assert 0 <= j < i < |g| && Carries(k, c, c.number, g[j]) && Carries(k, c, c.number, g[i]);
    }
    assert ConflictIn(g, k, c, c);
    CheckCellForDuplicatesSpec(g, c);
    assert Position(c) in PositionSet(CheckCellForDuplicates(g, c));
  }

  /** Cell `i` of `g` has no conflicting peer. */
  predicate CorrectAt(g: Grid, i: nat)
    requires i < |g|
  {
    |CheckCellForDuplicates(g, g[i])| == 0
  }

  /** `grid.every(...)` over the cells from index `k` on. */
  function EveryCellFrom(g: Grid, k: nat): bool
    requires k <= |g|
    decreases |g| - k
  {
    k == |g| || (CorrectAt(g, k) && EveryCellFrom(g, k + 1))
  }

  /** A cell from index `k` on is correct when all of them are. */
  lemma {:induction false} EveryCellFromAt(g: Grid, k: nat, i: nat)
    requires k <= i < |g| && EveryCellFrom(g, k)
    decreases i - k
    ensures CorrectAt(g, i)
  {
    if k < i {
      EveryCellFromAt(g, k + 1, i);
    }
  }

  /** The cells from index `k` on are all correct when each of them is. */
  lemma {:induction false} EveryCellFromAll(g: Grid, k: nat)
    requires k <= |g| && forall i :: k <= i < |g| ==> CorrectAt(g, i)
    decreases |g| - k
    ensures EveryCellFrom(g, k)
  {
    if k < |g| {
      EveryCellFromAll(g, k + 1);
    }
  }

  lemma EveryCellFromIff(g: Grid, k: nat)
    requires k <= |g|
    ensures EveryCellFrom(g, k) <==> forall i :: k <= i < |g| ==> CorrectAt(g, i)
  {
    if EveryCellFrom(g, k) {
      forall i | k <= i < |g| ensures CorrectAt(g, i) {
        EveryCellFromAt(g, k, i);
      }
    } else if forall i :: k <= i < |g| ==> CorrectAt(g, i) {
      EveryCellFromAll(g, k);
    }
  }

  /** Every cell of the grid is free of duplicates in its row, column and square. */
  function EveryFieldIsCorrect(g: Grid): bool {
    EveryCellFrom(g, 0)
  }

  /**
   * A grid is correct exactly when no two different numbered cells with the
   * same number share a row, a column or a square.
   */
  lemma EveryFieldIsCorrectIff(g: Grid)
    ensures EveryFieldIsCorrect(g) <==> NoClash(g)
  {
    EveryCellFromIff(g, 0);
    if NoClash(g) {
      forall i | 0 <= i < |g| ensures CorrectAt(g, i) {
        NoClashNoConflicts(g, g[i]);
      }
    } else {
      var i, j :| 0 <= i < |g| && 0 <= j < |g| && i != j && Numbered(g[i]) && g[i].number == g[j].number &&
        Peers(g[i], g[j]);
      ClashConflicts(g, i, j);
      assert !CorrectAt(g, i);
    }
  }

  function NumberedCells(g: Grid): (r: Grid)
    ensures |r| + EmptyCount(g) == |g|
  {
    if g == [] then [] else (if Numbered(g[0]) then [g[0]] else []) + NumberedCells(g[1..])
  }

  function EveryFieldIsFilledWithANumber(g: Grid): bool {
    |NumberedCells(g)| == |g|
  }

  /** The grid is full exactly when every cell carries a number. */
  lemma EveryFieldIsFilledIff(g: Grid)
    ensures EveryFieldIsFilledWithANumber(g) <==> forall c :: c in g ==> Numbered(c)
  {
    EmptyCountZero(g);
  }

  /**
   * The distinct numbers among the numbered cells that constrain `c`; the
   * digits that can no longer go into `c`.
   */
  ghost function PeerDigits(g: Grid, c: Cell): set<int> {
    set d | d in g && Numbered(d) && Peers(d, c) :: d.number
  }

  /** The row, the column and the square of `c`, concatenated as the source does. */
  function PeerCells(g: Grid, c: Cell): Grid
    requires c in g
  {
    CheckRow(g, c) + CheckColumn(g, c) + CheckSquare(g, c)
  }

  lemma PeerCellsMembers(g: Grid, c: Cell)
    requires c in g
    ensures forall d :: d in PeerCells(g, c) <==> d in g && Numbered(d) && Peers(d, c)
  {
    CheckGroupsMembers(g, c);
  }

  /** The length of `uniqBy(peers, number)`. */
  function UsedDigitCount(g: Grid, c: Cell): nat
    requires c in g
  {
    |UniqBy(PeerCells(g, c), CellNumber)|
  }

  /** The count is the number of distinct digits already used around `c`. */
  lemma UsedDigitCountSpec(g: Grid, c: Cell)
    requires c in g
    ensures UsedDigitCount(g, c) == |PeerDigits(g, c)|
  {
    var peers := PeerCells(g, c);
    var u := UniqBy(peers, CellNumber);
    PeerCellsMembers(g, c);
    UniqBySpec(peers, CellNumber);
    DistinctKeysCount(u, CellNumber);
    assert Keys(peers, CellNumber) == PeerDigits(g, c);
  }

  /**
   * The first empty cell among `g[..k]` whose peers use the most digits, or
   * -1 when that prefix has no empty cell.
   */
  function BestEmptyBefore(g: Grid, k: nat): (i: int)
    requires k <= |g|
    ensures -1 <= i < k
    ensures i >= 0 ==> !Numbered(g[i])
  {
    if k == 0 then -1
    else
      var b := BestEmptyBefore(g, k - 1);
      if Numbered(g[k - 1]) then b
      else if b < 0 || UsedDigitCount(g, g[b]) < UsedDigitCount(g, g[k - 1]) then k - 1
      else b
  }

  /**
   * No empty cell is found exactly when the prefix has none; otherwise the one
   * found has the most used digits around it, strictly more than every
   * earlier empty cell.
   */
  lemma {:induction false} BestEmptyBeforeSpec(g: Grid, k: nat)
    requires k <= |g|
    ensures var i := BestEmptyBefore(g, k);
      && (i == -1 <==> forall j :: 0 <= j < k ==> Numbered(g[j]))
      && (i >= 0 ==> forall j :: 0 <= j < k && !Numbered(g[j]) ==>
                       |PeerDigits(g, g[j])| <= |PeerDigits(g, g[i])|)
      && (i >= 0 ==> forall j :: 0 <= j < i && !Numbered(g[j]) ==>
                       |PeerDigits(g, g[j])| < |PeerDigits(g, g[i])|)
  {
    if k > 0 {
      BestEmptyBeforeSpec(g, k - 1);
      var b := BestEmptyBefore(g, k - 1);
      if !Numbered(g[k - 1]) {
        UsedDigitCountSpec(g, g[k - 1]);
        if b >= 0 {
          UsedDigitCountSpec(g, g[b]);
        }
      }
    }
  }

  /**
   * The minimum-remaining-value choice: the first empty cell, in grid order,
   * among those whose peers use the most distinct digits (lodash's `sortBy`
   * is stable).
   */
  function GetMinimumRemainingValue(g: Grid): (e: Cell)
    requires exists c :: c in g && !Numbered(c)
    ensures e in g && !Numbered(e)
  {
    BestEmptyBeforeSpec(g, |g|);
    g[BestEmptyBefore(g, |g|)]
  }

  /**
   * No empty cell has more used digits around it than the chosen one, and
   * every empty cell before it has strictly fewer.
   */
  lemma GetMinimumRemainingValueSpec(g: Grid)
    requires exists c :: c in g && !Numbered(c)
    ensures var e := GetMinimumRemainingValue(g);
      && (forall d :: d in g && !Numbered(d) ==> |PeerDigits(g, d)| <= |PeerDigits(g, e)|)
      && (exists i :: 0 <= i < |g| && g[i] == e &&
            forall j :: 0 <= j < i && !Numbered(g[j]) ==> |PeerDigits(g, g[j])| < |PeerDigits(g, e)|)
  {
    BestEmptyBeforeSpec(g, |g|);
    var i := BestEmptyBefore(g, |g|);
    forall d | d in g && !Numbered(d) ensures |PeerDigits(g, d)| <= |PeerDigits(g, g[i])| {
      var j :| 0 <= j < |g| && g[j] == d;
    }
  }
}

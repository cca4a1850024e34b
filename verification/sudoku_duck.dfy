/**
 * The sudoku slice of the application state: the board is a sequence of
 * cells, and the reducer answers five actions. Replacing the board, setting
 * and clearing a number build new cells; adding and removing a note change
 * the cell's note `Set` in place and then copy it into the new cell, so the
 * note sets of the previous board change too.
 */
module SudokuDuck {
  import Cells

  const SetSudokuType: string := "sudoku/SET_SUDOKU"
  const SetNoteType: string := "sudoku/SET_NOTE"
  const ClearNoteType: string := "sudoku/CLEAR_NOTE"
  const SetNumberType: string := "sudoku/SET_NUMBER"
  const ClearNumberType: string := "sudoku/CLEAR_NUMBER"

  /** The action types the reducer answers; any other type leaves the board alone. */
  const KnownTypes: seq<string> := [SetNoteType, SetSudokuType, ClearNoteType, SetNumberType, ClearNumberType]

  /** A cell's note digits: a mutable `Set` that cells may share. */
  class NoteSet {
    var elems: set<int>

    /** `new Set(notes)`: a fresh set with the same digits. */
    constructor (elems: set<int>)
      ensures this.elems == elems
    {
      this.elems := elems;
    }
  }

  /** A board cell; `number` 0 stands for no number. */
  datatype BoardCell = BoardCell(x: int, y: int, number: int, notes: NoteSet, initial: bool, showMenu: bool)

  type Board = seq<BoardCell>

  /** Cells are addressed by their `x-y` key, that is, by their coordinates. */
  predicate SamePlace(a: BoardCell, b: BoardCell) {
    a.x == b.x && a.y == b.y
  }

  /**
   * The actions the action creators build, and actions of any other type.
   * Replacing the board carries a board that is already parsed.
   */
  datatype Action =
    | SetSudoku(sudoku: Board)
    | SetNote(cell: BoardCell, note: int)
    | ClearNote(cell: BoardCell, note: int)
    | SetNumber(cell: BoardCell, number: int)
    | ClearNumber(cell: BoardCell)
    | Other(kind: string)

  function Type(a: Action): string {
    match a
    case SetSudoku(_) => SetSudokuType
    case SetNote(_, _) => SetNoteType
    case ClearNote(_, _) => ClearNoteType
    case SetNumber(_, _) => SetNumberType
    case ClearNumber(_) => ClearNumberType
    case Other(kind) => kind
  }

  /**
   * Every action a creator builds has one of the known types, and different
   * creators give different types, so the reducer can tell them apart.
   */
  lemma CreatedTypesAreKnown(a: Action, b: Action)
    requires !a.Other? && !b.Other?
    ensures Type(a) in KnownTypes
    ensures Type(a) == Type(b) <==>
              (a.SetSudoku? == b.SetSudoku? && a.SetNote? == b.SetNote? &&
               a.ClearNote? == b.ClearNote? && a.SetNumber? == b.SetNumber? && a.ClearNumber? == b.ClearNumber?)
  {
    assert SetSudokuType[11] == 'S' && SetNoteType[11] == 'N' && SetNumberType[11] == 'N';
    assert SetNoteType[12] == 'O' && SetNumberType[12] == 'U';
    assert ClearNoteType[14] == 'O' && ClearNumberType[14] == 'U';
    assert SetSudokuType[7] == SetNoteType[7] == SetNumberType[7] == 'S';
    assert ClearNoteType[7] == ClearNumberType[7] == 'C';
  }

  /** The cell with number `n` when it sits at the coordinates of `at`. */
  function Renumber(cell: BoardCell, at: BoardCell, n: int): BoardCell {
    if SamePlace(cell, at) then cell.(number := n) else cell
  }

  /**
   * The board after setting the number of the cell at the coordinates of
   * `at` to `n`. No other cell and no other field changes, the order stays,
   * and a cell given by the puzzle is overwritten like any other.
   */
  function WithNumber(state: Board, at: BoardCell, n: int): (r: Board)
    ensures |r| == |state|
    ensures forall i :: 0 <= i < |state| && !SamePlace(state[i], at) ==> r[i] == state[i]
    ensures forall i :: 0 <= i < |state| && SamePlace(state[i], at) ==>
              r[i].number == n && r[i].(number := state[i].number) == state[i]
  {
    seq(|state|, i requires 0 <= i < |state| => Renumber(state[i], at, n))
  }

  /** Of two numbers written to the same cell, the second one stays. */
  lemma WithNumberLastWins(state: Board, at: BoardCell, a: int, b: int)
    ensures WithNumber(WithNumber(state, at, a), at, b) == WithNumber(state, at, b)
  {
    var r := WithNumber(WithNumber(state, at, a), at, b);
    forall i | 0 <= i < |state| ensures r[i] == WithNumber(state, at, b)[i] {
      assert SamePlace(WithNumber(state, at, a)[i], at) == SamePlace(state[i], at);
    }
  }

  /** Writing the number a cell already holds leaves the board as it was. */
  lemma WithSameNumber(state: Board, at: BoardCell, n: int)
    requires forall c :: c in state && SamePlace(c, at) ==> c.number == n
    ensures WithNumber(state, at, n) == state
  {
    var r := WithNumber(state, at, n);
    forall i | 0 <= i < |state| ensures r[i] == state[i] {
      assert state[i] in state;
    }
  }

  /** `notes.add(note)` or `notes.delete(note)`. */
  function EditNotes(notes: set<int>, note: int, add: bool): (r: set<int>)
    ensures note in r <==> add
    ensures forall d :: d != note ==> (d in r <==> d in notes)
  {
    if add then notes + {note} else notes - {note}
  }

  /** Adding or removing a note twice is the same as doing it once. */
  lemma EditNotesTwice(notes: set<int>, note: int, add: bool)
    ensures EditNotes(EditNotes(notes, note, add), note, add) == EditNotes(notes, note, add)
  {
  }

  /** The note sets of the cells at the coordinates of `at`. */
  ghost function NotesAt(state: Board, at: BoardCell): set<NoteSet> {
    set c | c in state && SamePlace(c, at) :: c.notes
  }

  /** What an action changes in place: the note sets at its cell, for the note actions. */
  ghost function NotesTouched(state: Board, action: Action): set<NoteSet> {
    if action.SetNote? || action.ClearNote? then NotesAt(state, action.cell) else {}
  }

  /**
   * The callback of the note actions at the action's coordinates: the cell's
   * own note set is edited in place, and the new cell gets a fresh copy of
   * it; nothing else of the cell changes.
   */
  method EditCellNotes(cell: BoardCell, note: int, add: bool) returns (updated: BoardCell)
    modifies cell.notes
    ensures cell.notes.elems == EditNotes(old(cell.notes.elems), note, add)
    ensures fresh(updated.notes) && updated.notes.elems == cell.notes.elems
    ensures updated == cell.(notes := updated.notes)
  {
    cell.notes.elems := EditNotes(cell.notes.elems, note, add);
    var copy := new NoteSet(cell.notes.elems);
    updated := cell.(notes := copy);
  }

  /**
   * The `map` over the board for adding (`add`) or removing a note at the
   * coordinates of `at`. Cells elsewhere are kept as they are. Every note set
   * at those coordinates ends up edited once, even one that several cells
   * share, and each cell there gets a fresh copy of its edited set.
   */
  method MapNotes(state: Board, at: BoardCell, note: int, add: bool) returns (next: Board)
    modifies NotesAt(state, at)
    ensures |next| == |state|
    ensures forall i :: 0 <= i < |state| && !SamePlace(state[i], at) ==> next[i] == state[i]
    ensures forall i :: 0 <= i < |state| && SamePlace(state[i], at) ==>
              && fresh(next[i].notes)
              && next[i] == state[i].(notes := next[i].notes)
              && next[i].notes.elems == EditNotes(old(state[i].notes.elems), note, add)
    ensures forall o :: o in NotesAt(state, at) ==> o.elems == EditNotes(old(o.elems), note, add)
  {
    next := [];
    var i := 0;
    while i < |state|
      invariant 0 <= i <= |state| && |next| == i
      invariant forall k :: 0 <= k < i && !SamePlace(state[k], at) ==> next[k] == state[k]
      invariant forall k :: 0 <= k < i && SamePlace(state[k], at) ==>
                  && fresh(next[k].notes)
                  && next[k] == state[k].(notes := next[k].notes)
                  && next[k].notes.elems == EditNotes(old(state[k].notes.elems), note, add)
                  && state[k].notes.elems == EditNotes(old(state[k].notes.elems), note, add)
      invariant forall k :: 0 <= k < |state| && SamePlace(state[k], at) ==>
                  state[k].notes.elems == old(state[k].notes.elems) ||
                  state[k].notes.elems == EditNotes(old(state[k].notes.elems), note, add)
    {
      var updated := state[i];
      if SamePlace(state[i], at) {
        assert state[i].notes in NotesAt(state, at);
        EditNotesTwice(old(state[i].notes.elems), note, add);
        updated := EditCellNotes(state[i], note, add);
      }
      next := next + [updated];
      i := i + 1;
    }
    forall o | o in NotesAt(state, at) ensures o.elems == EditNotes(old(o.elems), note, add) {
      var c :| c in state && SamePlace(c, at) && c.notes == o;
      var k :| 0 <= k < |state| && state[k] == c;
    }
  }

  /**
   * The reducer. An action of an unknown type returns the board itself, and
   * replacing the board returns the new one; the four cell actions map the
   * board: the number actions as `WithNumber` says, the note actions as
   * `MapNotes` says. A cell keeps its coordinates and whether the
   * puzzle gave it, whatever the action.
   */
  method SudokuReducer(state: Board, action: Action) returns (next: Board)
    requires action.Other? ==> action.kind !in KnownTypes
    modifies NotesTouched(state, action)
    ensures Type(action) !in KnownTypes ==> next == state
    ensures action.SetSudoku? ==> next == action.sudoku
    ensures action.SetNumber? ==> next == WithNumber(state, action.cell, action.number)
    ensures action.ClearNumber? ==> next == WithNumber(state, action.cell, Cells.NoNumber)
    ensures !action.SetSudoku? ==>
              (|next| == |state| &&
               forall i :: 0 <= i < |state| ==> SamePlace(next[i], state[i]) && next[i].initial == state[i].initial)
    ensures action.SetNote? || action.ClearNote? ==>
              && (forall i :: 0 <= i < |state| && !SamePlace(state[i], action.cell) ==> next[i] == state[i])
              && (forall i :: 0 <= i < |state| && SamePlace(state[i], action.cell) ==>
                    && fresh(next[i].notes)
                    && next[i] == state[i].(notes := next[i].notes)
                    && next[i].notes.elems == EditNotes(old(state[i].notes.elems), action.note, action.SetNote?))
              && (forall o :: o in NotesAt(state, action.cell) ==>
                    o.elems == EditNotes(old(o.elems), action.note, action.SetNote?))
  {
    if Type(action) !in KnownTypes {
      return state;
    }
    if action.SetSudoku? {
      return action.sudoku;
    }
    match action
    case SetNote(cell, note) =>
      next := MapNotes(state, cell, note, true);
    case ClearNote(cell, note) =>
      next := MapNotes(state, cell, note, false);
    case SetNumber(cell, number) =>
      next := WithNumber(state, cell, number);
    case ClearNumber(cell) =>
      next := WithNumber(state, cell, Cells.NoNumber);
    case SetSudoku(_) =>
      assert false;
    case Other(_) =>
      assert false;
  }
}

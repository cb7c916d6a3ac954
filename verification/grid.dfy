/**
  The 7x7 board of the reactor game: cell ownership, reactor marks, and the one
  primitive that changes them, reactor activation.

  A cell holds an integer owner code, as in the game: 0 for an empty cell,
  1 for the human, 2 for the bot. A reactor mark is a boolean per cell.
 */
module Grid {

  const Size: int := 7
  const Empty: int := 0
  const HumanCell: int := 1
  const BotCell: int := 2

  /** A row-major two-dimensional grid. */
  type Matrix<T> = seq<seq<T>>

  /** The board: who owns each cell, and where reactors were placed. */
  datatype Board = Board(cells: Matrix<int>, reactors: Matrix<bool>)

  predicate IsSquare<T>(g: Matrix<T>) {
    |g| == Size && forall r :: 0 <= r < Size ==> |g[r]| == Size
  }

  predicate InBounds(r: int, c: int) {
    0 <= r < Size && 0 <= c < Size
  }

  /** (nr, nc) is one of the four orthogonal neighbours of (r, c). */
  predicate Adjacent(r: int, c: int, nr: int, nc: int) {
    || (nr == r && (nc == c - 1 || nc == c + 1))
    || (nc == c && (nr == r - 1 || nr == r + 1))
  }

  /** The cells an activation at (row, col) may write: the cell itself and its neighbours. */
  predicate InFootprint(row: int, col: int, r: int, c: int) {
    (r == row && c == col) || Adjacent(row, col, r, c)
  }

  /** (r, c) is an empty cell of the board. */
  predicate EmptyAt(g: Matrix<int>, r: int, c: int)
    requires IsSquare(g)
  {
    InBounds(r, c) && g[r][c] == Empty
  }

  predicate IsOwner(v: int) {
    v == HumanCell || v == BotCell
  }

  /** A 7x7 grid of owner codes 0, 1 or 2. */
  ghost predicate ValidCells(g: Matrix<int>) {
    IsSquare(g) && forall r, c :: InBounds(r, c) ==> 0 <= g[r][c] <= 2
  }

  /** The board invariants the game keeps: fixed 7x7 shape, owner codes in {0,1,2},
      and a reactor only on an owned cell. */
  ghost predicate ValidBoard(b: Board) {
    && ValidCells(b.cells)
    && IsSquare(b.reactors)
    && (forall r, c :: InBounds(r, c) && b.reactors[r][c] ==> b.cells[r][c] != Empty)
  }

  function Fill<T>(v: T): (g: Matrix<T>)
    ensures IsSquare(g)
    ensures forall r, c :: InBounds(r, c) ==> g[r][c] == v
  {
    seq(Size, _ => seq(Size, _ => v))
  }

  /** The board of a fresh game: every cell empty, no reactor anywhere. */
  function NewBoard(): (b: Board)
    ensures ValidBoard(b)
    ensures forall r, c :: InBounds(r, c) ==> b.cells[r][c] == Empty && !b.reactors[r][c]
  {
    Board(Fill(Empty), Fill(false))
  }

  /** Writes v into one in-bounds cell. */
  function Set<T>(g: Matrix<T>, r: int, c: int, v: T): (g': Matrix<T>)
    requires IsSquare(g) && InBounds(r, c)
    ensures IsSquare(g')
    ensures forall i, j :: InBounds(i, j) ==> g'[i][j] == (if i == r && j == c then v else g[i][j])
  {
    g[r := g[r][c := v]]
  }

  /** Writes v into (r, c) when that cell is on the board; off the board nothing happens. */
  function SetIfInBounds<T>(g: Matrix<T>, r: int, c: int, v: T): (g': Matrix<T>)
    requires IsSquare(g)
    ensures IsSquare(g')
    ensures forall i, j :: InBounds(i, j) ==> g'[i][j] == (if i == r && j == c then v else g[i][j])
  {
    if InBounds(r, c) then Set(g, r, c, v) else g
  }

  /** Places a reactor of `player` at (row, col): the cell gets a reactor mark and the
      player's code, then each in-bounds orthogonal neighbour (up, down, left, right)
      is overwritten with the player's code. Neighbours' reactor marks are untouched. */
  function Activate(b: Board, row: int, col: int, player: int): (b': Board)
    requires IsSquare(b.cells) && IsSquare(b.reactors) && InBounds(row, col)
    ensures IsSquare(b'.cells) && IsSquare(b'.reactors)
    ensures forall r, c :: InBounds(r, c) ==>
      b'.cells[r][c] == (if InFootprint(row, col, r, c) then player else b.cells[r][c])
    ensures forall r, c :: InBounds(r, c) ==>
      b'.reactors[r][c] == (if r == row && c == col then true else b.reactors[r][c])
  {
    var marks := Set(b.reactors, row, col, true);
    var cells := Set(b.cells, row, col, player);
    var cells := SetIfInBounds(cells, row - 1, col, player);
    var cells := SetIfInBounds(cells, row + 1, col, player);
    var cells := SetIfInBounds(cells, row, col - 1, player);
    var cells := SetIfInBounds(cells, row, col + 1, player);
    Board(cells, marks)
  }

  /** The set of cells whose owner differs between two boards. */
  function Changed(a: Matrix<int>, b: Matrix<int>): set<(int, int)>
    requires IsSquare(a) && IsSquare(b)
  {
    set r, c | 0 <= r < Size && 0 <= c < Size && a[r][c] != b[r][c] :: (r, c)
  }

  function Footprint(row: int, col: int): set<(int, int)> {
    {(row, col), (row - 1, col), (row + 1, col), (row, col - 1), (row, col + 1)}
  }

  lemma FootprintSize(row: int, col: int)
    ensures |Footprint(row, col)| == 5
  {
    var f := Footprint(row, col);
    assert f == {(row, col)} + {(row - 1, col)} + {(row + 1, col)} + {(row, col - 1)} + {(row, col + 1)};
  }

  lemma SubsetSize<T>(a: set<T>, b: set<T>)
    requires a <= b
    ensures |a| <= |b|
  {
    assert b == a + (b - a);
  }

  /** Activation changes the owner of at most five cells, all in its footprint; when it
      claims an empty cell for a player, at least that cell changes. */
  lemma ActivateChangesAtMostFive(b: Board, row: int, col: int, player: int)
    requires IsSquare(b.cells) && IsSquare(b.reactors) && InBounds(row, col)
    ensures Changed(b.cells, Activate(b, row, col, player).cells) <= Footprint(row, col)
    ensures |Changed(b.cells, Activate(b, row, col, player).cells)| <= 5
    ensures b.cells[row][col] == Empty && IsOwner(player) ==>
      (row, col) in Changed(b.cells, Activate(b, row, col, player).cells)
      && 1 <= |Changed(b.cells, Activate(b, row, col, player).cells)|
  {
    var b' := Activate(b, row, col, player);
    var ch := Changed(b.cells, b'.cells);
    forall p | p in ch
      ensures p in Footprint(row, col)
    {
      var (r, c) := p;
      assert InBounds(r, c) && b.cells[r][c] != b'.cells[r][c];
    }
    FootprintSize(row, col);
    SubsetSize(ch, Footprint(row, col));
  }

  /** Activation by a player keeps the board invariants. */
  lemma ActivatePreservesValid(b: Board, row: int, col: int, player: int)
    requires ValidBoard(b) && InBounds(row, col) && IsOwner(player)
    ensures ValidBoard(Activate(b, row, col, player))
  {
  }

  // ---------------------------------------------------------------------------
  // Counting cells

  function CountRow<T(==)>(s: seq<T>, v: T): (n: nat)
    ensures n <= |s|
  {
    if |s| == 0 then 0 else (if s[0] == v then 1 else 0) + CountRow(s[1..], v)
  }

  /** Number of cells of g equal to v. */
  function Count<T(==)>(g: Matrix<T>, v: T): nat {
    if |g| == 0 then 0 else CountRow(g[0], v) + Count(g[1..], v)
  }

  /** Every cell of a row holding only 0, 1 or 2 is counted exactly once. */
  lemma {:induction false} RowPartition(s: seq<int>)
    requires forall i :: 0 <= i < |s| ==> 0 <= s[i] <= 2
    ensures CountRow(s, Empty) + CountRow(s, HumanCell) + CountRow(s, BotCell) == |s|
  {
    if |s| > 0 {
      RowPartition(s[1..]);
    }
  }

  lemma {:induction false} GridPartition(g: Matrix<int>)
    requires forall r :: 0 <= r < |g| ==> |g[r]| == Size
    requires forall r, c :: 0 <= r < |g| && 0 <= c < Size ==> 0 <= g[r][c] <= 2
    ensures Count(g, Empty) + Count(g, HumanCell) + Count(g, BotCell) == |g| * Size
  {
    if |g| > 0 {
      RowPartition(g[0]);
      GridPartition(g[1..]);
    }
  }

  /** On a valid board the empty, human and bot counts add up to the 49 cells. */
  lemma BoardPartition(b: Board)
    requires ValidBoard(b)
    ensures Count(b.cells, Empty) + Count(b.cells, HumanCell) + Count(b.cells, BotCell) == Size * Size
  {
    GridPartition(b.cells);
  }

  /** If every v in `after` was already v in `before`, `after` has no more v's; it has
      strictly fewer when some v of `before` is gone. */
  lemma {:induction false} CountRowShrinks<T>(before: seq<T>, after: seq<T>, v: T)
    requires |before| == |after|
    requires forall i :: 0 <= i < |after| && after[i] == v ==> before[i] == v
    ensures CountRow(after, v) <= CountRow(before, v)
    ensures (exists i :: 0 <= i < |after| && before[i] == v && after[i] != v) ==>
      CountRow(after, v) < CountRow(before, v)
  {
    if |after| > 0 {
      CountRowShrinks(before[1..], after[1..], v);
      if exists i :: 0 <= i < |after| && before[i] == v && after[i] != v {
        var i :| 0 <= i < |after| && before[i] == v && after[i] != v;
        if i > 0 {
          assert before[1..][i - 1] == v && after[1..][i - 1] != v;
        }
      }
    }
  }

  lemma {:induction false} CountShrinks<T>(before: Matrix<T>, after: Matrix<T>, v: T)
    requires |before| == |after|
    requires forall r :: 0 <= r < |after| ==> |before[r]| == |after[r]|
    requires forall r, c :: 0 <= r < |after| && 0 <= c < |after[r]| && after[r][c] == v ==> before[r][c] == v
    ensures Count(after, v) <= Count(before, v)
    ensures (exists r, c :: 0 <= r < |after| && 0 <= c < |after[r]| && before[r][c] == v && after[r][c] != v) ==>
      Count(after, v) < Count(before, v)
  {
    if |after| > 0 {
      CountRowShrinks(before[0], after[0], v);
      CountShrinks(before[1..], after[1..], v);
      if exists r, c :: 0 <= r < |after| && 0 <= c < |after[r]| && before[r][c] == v && after[r][c] != v {
        var r, c :| 0 <= r < |after| && 0 <= c < |after[r]| && before[r][c] == v && after[r][c] != v;
        if r > 0 {
          assert before[1..][r - 1][c] == v && after[1..][r - 1][c] != v;
        }
      }
    }
  }

  /** Writing one cell moves the count of v by the difference it makes at that cell. */
  lemma {:induction false} CountRowUpdate<T>(s: seq<T>, i: int, x: T, v: T)
    requires 0 <= i < |s|
    ensures CountRow(s[i := x], v) + (if s[i] == v then 1 else 0)
         == CountRow(s, v) + (if x == v then 1 else 0)
  {
    if i > 0 {
      assert s[i := x][1..] == s[1..][i - 1 := x];
      CountRowUpdate(s[1..], i - 1, x, v);
    } else {
      assert s[i := x][1..] == s[1..];
    }
  }

  lemma {:induction false} CountUpdate<T>(g: Matrix<T>, r: int, c: int, x: T, v: T)
    requires 0 <= r < |g| && 0 <= c < |g[r]|
    ensures Count(g[r := g[r][c := x]], v) + (if g[r][c] == v then 1 else 0)
         == Count(g, v) + (if x == v then 1 else 0)
  {
    if r > 0 {
      assert g[r := g[r][c := x]][1..] == g[1..][r - 1 := g[r][c := x]];
      CountUpdate(g[1..], r - 1, c, x, v);
    } else {
      assert g[r := g[r][c := x]][1..] == g[1..];
      CountRowUpdate(g[0], c, x, v);
    }
  }

  lemma {:induction false} CountFill<T>(n: nat, v: T)
    ensures CountRow(seq(n, _ => v), v) == n
  {
    if n > 0 {
      assert seq(n, _ => v)[1..] == seq(n - 1, _ => v);
      CountFill(n - 1, v);
    }
  }

  /** A fresh board has all 49 cells empty and no reactor. */
  lemma NewBoardCounts()
    ensures Count(NewBoard().cells, Empty) == Size * Size
    ensures Count(NewBoard().reactors, true) == 0
  {
    var row := seq(Size, _ => Empty);
    CountFill(Size, Empty);
    var g := NewBoard().cells;
    assert g == [row, row, row, row, row, row, row];
    assert g[1..][1..][1..][1..][1..][1..][1..] == [];
    var m := NewBoard().reactors;
    var mrow := seq(Size, _ => false);
    assert m == [mrow, mrow, mrow, mrow, mrow, mrow, mrow];
    assert CountRow(mrow, true) == 0 by {
      assert forall i :: 0 <= i < |mrow| ==> mrow[i] != true;
      NoneCounted(mrow, true);
    }
  }

  lemma {:induction false} NoneCounted<T>(s: seq<T>, v: T)
    requires forall i :: 0 <= i < |s| ==> s[i] != v
    ensures CountRow(s, v) == 0
  {
    if |s| > 0 {
      NoneCounted(s[1..], v);
    }
  }

  /** A grid with no cell equal to v counts no v. */
  lemma {:induction false} NoneCountedGrid<T>(g: Matrix<T>, v: T)
    requires forall r, c :: 0 <= r < |g| && 0 <= c < |g[r]| ==> g[r][c] != v
    ensures Count(g, v) == 0
  {
    if |g| > 0 {
      NoneCounted(g[0], v);
      NoneCountedGrid(g[1..], v);
    }
  }

  /** Claiming an empty cell for a player removes at least one empty cell and never
      creates one, and adds exactly one reactor mark (the cell had none). */
  lemma ActivateCounts(b: Board, row: int, col: int, player: int)
    requires ValidBoard(b) && InBounds(row, col) && IsOwner(player)
    requires b.cells[row][col] == Empty
    ensures Count(Activate(b, row, col, player).cells, Empty) < Count(b.cells, Empty)
    ensures Count(Activate(b, row, col, player).reactors, true) == Count(b.reactors, true) + 1
  {
    var b' := Activate(b, row, col, player);
    CountShrinks(b.cells, b'.cells, Empty);
    assert b.cells[row][col] == Empty && b'.cells[row][col] != Empty;
    assert !b.reactors[row][col];
    assert b'.reactors == b.reactors[row := b.reactors[row][col := true]];
    CountUpdate(b.reactors, row, col, true, true);
  }
}

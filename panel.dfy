/**
 * The puzzle panel: the grid of buttons and the counters that the game
 * screen updates in place.  Every method of a started game is proved
 * against the pure engine of module PuzzleEngine: its effect on State()
 * is the engine's.
 */
module PuzzlePanels {
  import opened Optional
  import opened PuzzleEngine

  /** What a click on a tile leads to: nothing, a move, or a move that
      solves the puzzle and yields the final score. */
  datatype ClickOutcome = Ignored | Moved | Solved(finalScore: int)

  /** The cell shown by the button at row-major index i. */
  function CellAt(g: array2<Cell>, n: int, i: int): Cell
    reads g
    requires n >= 1 && g.Length0 == n && g.Length1 == n
    requires 0 <= i < n * n
  {
    IndexSplit(n, i);
    g[i / n, i % n]
  }

  /** The grid of buttons, read row by row. */
  ghost function Flatten(g: array2<Cell>, n: int): (cells: seq<Cell>)
    reads g
    requires n >= 1 && g.Length0 == n && g.Length1 == n
    ensures |cells| == n * n
    ensures forall i :: 0 <= i < n * n ==> cells[i] == CellAt(g, n, i)
  {
    seq(n * n, i requires 0 <= i < n * n reads g => CellAt(g, n, i))
  }

  class PuzzlePanel {
    var grid: array2<Cell>
    var gridSize: int
    var emptyRow: int
    var emptyCol: int
    var timeElapsed: int
    var moveCount: int
    var timerRunning: bool

    ghost predicate Valid()
      reads this
    {
      && gridSize >= 1
      && grid.Length0 == gridSize && grid.Length1 == gridSize
      && 0 <= emptyRow < gridSize && 0 <= emptyCol < gridSize
    }

    ghost function State(): (p: Puzzle)
      reads this, grid
      requires Valid()
      ensures WellFormed(p)
    {
      Puzzle(gridSize, Flatten(grid, gridSize), emptyRow, emptyCol, moveCount, timeElapsed, timerRunning)
    }

    /** A panel before its first game: no grid, counters at zero, clock off.
        Like the source's button array before the first set-up, this empty
        panel is not Valid(); StartGame makes it so. */
    constructor ()
      ensures gridSize == 0 && grid.Length0 == 0 && grid.Length1 == 0
      ensures emptyRow == 0 && emptyCol == 0
      ensures timeElapsed == 0 && moveCount == 0 && !timerRunning
    {
      grid := new Cell[0, 0];
      gridSize, emptyRow, emptyCol := 0, 0, 0;
      timeElapsed, moveCount := 0, 0;
      timerRunning := false;
    }

    /** A new game of the given size from the given shuffle of the ids
        0 .. n*n - 1: lay out the grid, then reset and start the clock. */
    method StartGame(n: int, perm: seq<int>)
      requires n >= 1 && IsShuffle(perm, n * n)
      modifies this
      ensures Valid() && fresh(grid)
      ensures State() == Start(n, perm)
    {
      gridSize := n;
      SetupGrid(perm);
      StartTimer();
    }

    /** Lays out a fresh grid: cell i (row-major) gets the i-th shuffled id,
        except the last cell, which is left empty and becomes the empty slot. */
    method SetupGrid(perm: seq<int>)
      requires gridSize >= 1 && IsShuffle(perm, gridSize * gridSize)
      modifies this
      ensures gridSize == old(gridSize) && moveCount == old(moveCount)
      ensures timeElapsed == old(timeElapsed) && timerRunning == old(timerRunning)
      ensures Valid() && fresh(grid)
      ensures Flatten(grid, gridSize) == Layout(gridSize, perm)
      ensures emptyRow == gridSize - 1 && emptyCol == gridSize - 1
    {
      var n := gridSize;
      grid := new Cell[n, n];
      LastIndex(n);
      var i := 0;
      while i < n * n
        invariant 0 <= i <= n * n
        invariant fresh(grid) && grid.Length0 == n && grid.Length1 == n
        invariant gridSize == n && moveCount == old(moveCount)
        invariant timeElapsed == old(timeElapsed) && timerRunning == old(timerRunning)
        invariant forall j :: 0 <= j < i ==> CellAt(grid, n, j) == Layout(n, perm)[j]
        invariant i == n * n ==> emptyRow == n - 1 && emptyCol == n - 1
      {
        IndexSplit(n, i);
        var r := i / n;
        var c := i % n;
        if i == n * n - 1 {
          grid[r, c] := Empty;
          emptyRow := r;
          emptyCol := c;
        } else {
          grid[r, c] := Tile(perm[i]);
        }
        forall j | 0 <= j < i
          ensures CellAt(grid, n, j) == Layout(n, perm)[j]
        {
          IndexSplit(n, j);
          IndexUnique(n, j / n, j % n, r, c);
        }
        i := i + 1;
      }
    }

    /** Resets both counters and (re)starts the game clock; the grid and
        the empty slot stay as laid out. */
    method StartTimer()
      requires Valid()
      modifies this`timeElapsed, this`moveCount, this`timerRunning
      ensures Valid()
      ensures State() == old(State()).(moveCount := 0, timeElapsed := 0, timerRunning := true)
    {
      timeElapsed := 0;
      moveCount := 0;
      timerRunning := true;
    }

    /** One tick of the running game clock. */
    method Tick()
      requires Valid() && timerRunning
      modifies this`timeElapsed
      ensures State() == PuzzleEngine.Tick(old(State()))
    {
      timeElapsed := timeElapsed + 1;
    }

    /** The scan of the win test: stops at the first cell i below
        n*n - 1 that is empty or holds a tile other than i. */
    method IsWin() returns (isWin: bool)
      requires Valid()
      ensures isWin == Won(State())
    {
      var n := gridSize;
      isWin := true;
      var i := 0;
      while i < n * n - 1
        invariant 0 <= i <= n * n - 1
        invariant isWin
        invariant forall j :: 0 <= j < i ==> CellAt(grid, n, j) == Tile(j)
      {
        IndexSplit(n, i);
        var cell := grid[i / n, i % n];
        if cell.Empty? || cell.id != i {
          assert Flatten(grid, n)[i] != Tile(i);
          isWin := false;
          break;
        }
        i := i + 1;
      }
    }

    /** The win test run after each accepted move: on a win the clock
        stops and the final score is reported. */
    method CheckWinCondition() returns (finalScore: Option<int>)
      requires Valid()
      modifies this`timerRunning
      ensures Valid()
      ensures State() == if Won(old(State())) then old(State()).(timerRunning := false) else old(State())
      ensures finalScore == if Won(old(State())) then Some(Score(timeElapsed, moveCount)) else None
    {
      var isWin := IsWin();
      if isWin {
        timerRunning := false;
        finalScore := Some(Score(timeElapsed, moveCount));
      } else {
        finalScore := None;
      }
    }

    /** A click on the button at (row, col). */
    method Click(row: int, col: int) returns (outcome: ClickOutcome)
      requires Valid()
      requires 0 <= row < gridSize && 0 <= col < gridSize
      modifies this, grid
      ensures Valid() && grid == old(grid)
      ensures State() == PuzzleEngine.Click(old(State()), row, col)
      ensures outcome.Ignored? <==> !Adjacent(row, col, old(emptyRow), old(emptyCol))
      ensures outcome.Solved? <==> Adjacent(row, col, old(emptyRow), old(emptyCol)) && Won(State())
      ensures outcome.Solved? ==> outcome.finalScore == Score(timeElapsed, moveCount)
    {
      if Adjacent(row, col, emptyRow, emptyCol) {
        ghost var before := State();
        var n := gridSize;
        ghost var e := Index(n, emptyRow, emptyCol);
        ghost var k := Index(n, row, col);
        IndexUnique(n, row, col, emptyRow, emptyCol);
        IndexCoordinates(n, row, col);
        ghost var after := before.cells[e := before.cells[k]][k := Empty];
        assert before.cells[k] == grid[row, col];
        moveCount := moveCount + 1;
        var clicked := grid[row, col];
        grid[emptyRow, emptyCol] := clicked;
        grid[row, col] := Empty;
        forall j | 0 <= j < n * n
          ensures CellAt(grid, n, j) == after[j]
        {
          IndexSplit(n, j);
          var r, c := j / n, j % n;
          IndexUnique(n, r, c, row, col);
          IndexUnique(n, r, c, before.emptyRow, before.emptyCol);
          if j == k {
            assert after[j] == Empty;
            assert CellAt(grid, n, j) == grid[row, col];
          } else if j == e {
            assert after[j] == clicked;
            assert CellAt(grid, n, j) == grid[before.emptyRow, before.emptyCol];
          } else {
            assert after[j] == before.cells[j];
            assert grid[r, c] == old(grid[r, c]);
            assert before.cells[j] == old(grid[r, c]);
          }
        }
        assert Flatten(grid, n) == after;
        emptyRow, emptyCol := row, col;
        assert State() == Slide(before, row, col);
        var finalScore := CheckWinCondition();
        outcome := if finalScore.Some? then Solved(finalScore.value) else Moved;
      } else {
        outcome := Ignored;
      }
    }
  }
}

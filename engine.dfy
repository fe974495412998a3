/**
 * The sliding-tile engine of the puzzle panel, as pure values.
 *
 * The panel keeps an N x N grid of buttons; a button either shows a tile
 * (its icon, with the tile's number in the `tile_id` property) or shows no
 * icon (the empty slot).  Here the grid is the row-major sequence of its
 * cells: cell (r, c) is entry r * N + c, which is the correspondence the
 * panel itself uses when it walks the grid with i / N and i % N.
 */
module PuzzleEngine {

  datatype Cell = Empty | Tile(id: int)

  /** The state of one puzzle panel: the grid, the tracked empty slot, the
      move counter, the elapsed seconds and whether the game clock runs. */
  datatype Puzzle = Puzzle(
    n: int,
    cells: seq<Cell>,
    emptyRow: int,
    emptyCol: int,
    moveCount: int,
    timeElapsed: int,
    timerRunning: bool)

  // ---------------------------------------------------------------------
  // Row-major indexing

  function Index(n: int, r: int, c: int): (i: int)
    ensures 0 <= r < n && 0 <= c < n ==> 0 <= i < n * n
  {
    IndexInRange(n, r, c);
    r * n + c
  }

  lemma MulMono(a: int, b: int, n: int)
    requires a <= b && n >= 0
    ensures a * n <= b * n
  {
  }

  lemma IndexInRange(n: int, r: int, c: int)
    ensures 0 <= r < n && 0 <= c < n ==> 0 <= r * n + c < n * n
  {
    if 0 <= r < n && 0 <= c < n {
      MulMono(0, r, n);
      MulMono(r, n - 1, n);
      assert (n - 1) * n == n * n - n;
    }
  }

  /** Two (row, column) pairs with in-range columns have the same index
      only if they are equal. */
  lemma IndexUnique(n: int, r1: int, c1: int, r2: int, c2: int)
    requires 0 <= c1 < n && 0 <= c2 < n
    ensures Index(n, r1, c1) == Index(n, r2, c2) <==> r1 == r2 && c1 == c2
  {
    if Index(n, r1, c1) != Index(n, r2, c2) {
    } else if r1 < r2 {
      assert (r1 + 1) * n == r1 * n + n;
      MulMono(r1 + 1, r2, n);
    } else if r2 < r1 {
      assert (r2 + 1) * n == r2 * n + n;
      MulMono(r2 + 1, r1, n);
    }
  }

  /** Row and column of a cell index are recovered by division. */
  lemma IndexSplit(n: int, i: int)
    requires n >= 1 && 0 <= i < n * n
    ensures 0 <= i / n < n && 0 <= i % n < n
    ensures Index(n, i / n, i % n) == i
  {
  }

  /** Division recovers the row and column from an index. */
  lemma IndexCoordinates(n: int, r: int, c: int)
    requires 0 <= r < n && 0 <= c < n
    ensures Index(n, r, c) / n == r && Index(n, r, c) % n == c
  {
    IndexSplit(n, Index(n, r, c));
    IndexUnique(n, Index(n, r, c) / n, Index(n, r, c) % n, r, c);
  }

  lemma LastIndex(n: int)
    requires n >= 1
    ensures (n * n - 1) / n == n - 1 && (n * n - 1) % n == n - 1
    ensures Index(n, n - 1, n - 1) == n * n - 1
  {
    IndexSplit(n, n * n - 1);
    IndexUnique(n, (n * n - 1) / n, (n * n - 1) % n, n - 1, n - 1);
  }

  // ---------------------------------------------------------------------
  // Shuffles and tile multisets

  /** 0, 1, ..., count - 1: the tile numbers the panel draws from. */
  function Range(count: nat): (r: seq<int>)
    ensures |r| == count
  {
    seq(count, i => i)
  }

  lemma {:induction false} RangeCount(count: nat, k: int)
    ensures multiset(Range(count))[k] == if 0 <= k < count then 1 else 0
  {
    if count > 0 {
      assert Range(count) == Range(count - 1) + [count - 1];
      RangeCount(count - 1, k);
    }
  }

  /** `perm` is an ordering of 0 .. count - 1, as the shuffled id list is. */
  ghost predicate IsShuffle(perm: seq<int>, count: nat) {
    |perm| == count && multiset(perm) == multiset(Range(count))
  }

  /** The multiset of tile numbers on a grid. */
  function Bag(cells: seq<Cell>): multiset<int> {
    if cells == [] then multiset{}
    else CellBag(cells[0]) + Bag(cells[1..])
  }

  function CellBag(cell: Cell): multiset<int> {
    match cell
    case Empty => multiset{}
    case Tile(id) => multiset{id}
  }

  lemma {:induction false} BagAppend(a: seq<Cell>, b: seq<Cell>)
    ensures Bag(a + b) == Bag(a) + Bag(b)
  {
    if a != [] {
      assert (a + b)[1..] == a[1..] + b;
      BagAppend(a[1..], b);
    } else {
      assert a + b == b;
    }
  }

  /** Overwriting one cell swaps that cell's tile for the new one in the bag. */
  lemma {:induction false} BagUpdate(cells: seq<Cell>, i: int, x: Cell)
    requires 0 <= i < |cells|
    ensures Bag(cells[i := x]) + CellBag(cells[i]) == Bag(cells) + CellBag(x)
  {
    if i > 0 {
      var rest := cells[1..];
      assert cells[i := x][1..] == rest[i - 1 := x];
      assert Bag(cells[i := x]) == CellBag(cells[0]) + Bag(rest[i - 1 := x]);
      assert Bag(cells) == CellBag(cells[0]) + Bag(rest);
      BagUpdate(rest, i - 1, x);
      assert rest[i - 1] == cells[i];
      calc {
        Bag(cells[i := x]) + CellBag(cells[i]);
        CellBag(cells[0]) + (Bag(rest[i - 1 := x]) + CellBag(rest[i - 1]));
        CellBag(cells[0]) + (Bag(rest) + CellBag(x));
      }
    } else {
      assert cells[i := x][1..] == cells[1..];
    }
  }

  lemma Cancel(a: multiset<int>, b: multiset<int>, c: multiset<int>)
    requires a + c == b + c
    ensures a == b
  {
    assert forall x :: a[x] == (a + c)[x] - c[x];
  }

  /** A tile that sits on the grid is in the bag. */
  lemma {:induction false} BagHas(cells: seq<Cell>, i: int)
    requires 0 <= i < |cells| && cells[i].Tile?
    ensures cells[i].id in Bag(cells)
  {
    if i > 0 {
      BagHas(cells[1..], i - 1);
    }
  }

  // ---------------------------------------------------------------------
  // Initial layout

  /** The grid built by the set-up loop: every cell but the last takes the
      shuffled id at its index; the last cell (bottom-right) is empty.  The
      last shuffled id is never placed. */
  function Layout(n: int, perm: seq<int>): (cells: seq<Cell>)
    requires n >= 1 && |perm| == n * n
    ensures |cells| == n * n
    ensures forall i :: 0 <= i < n * n ==> (cells[i] == Empty <==> i == n * n - 1)
  {
    seq(n * n, i requires 0 <= i < n * n => if i == n * n - 1 then Empty else Tile(perm[i]))
  }

  function TilesOf(ids: seq<int>): (cells: seq<Cell>)
    ensures |cells| == |ids|
  {
    seq(|ids|, i requires 0 <= i < |ids| => Tile(ids[i]))
  }

  lemma {:induction false} BagTilesOf(ids: seq<int>)
    ensures Bag(TilesOf(ids)) == multiset(ids)
  {
    if ids != [] {
      assert TilesOf(ids)[1..] == TilesOf(ids[1..]);
      assert ids == [ids[0]] + ids[1..];
      BagTilesOf(ids[1..]);
    }
  }

  /** The game state right after a new game starts: the grid as laid out,
      the empty slot at the bottom-right corner, both counters reset and
      the clock started.  The new game is already won exactly when the
      shuffle left every id but the last one in place. */
  function Start(n: int, perm: seq<int>): (p: Puzzle)
    requires n >= 1 && |perm| == n * n
    ensures |p.cells| == p.n * p.n
    ensures Won(p) <==> forall i :: 0 <= i < n * n - 1 ==> perm[i] == i
  {
    var cells := Layout(n, perm);
    assert forall i :: 0 <= i < n * n - 1 ==> cells[i] == Tile(perm[i]);
    Puzzle(n, cells, n - 1, n - 1, 0, 0, true)
  }

  // ---------------------------------------------------------------------
  // Invariants

  ghost predicate WellFormed(p: Puzzle) {
    && p.n >= 1
    && |p.cells| == p.n * p.n
    && 0 <= p.emptyRow < p.n
    && 0 <= p.emptyCol < p.n
  }

  /** Exactly one cell is empty, and it is the one the panel tracks. */
  ghost predicate OneEmpty(p: Puzzle)
    requires WellFormed(p)
  {
    forall i :: 0 <= i < |p.cells| ==>
      (p.cells[i] == Empty <==> i == Index(p.n, p.emptyRow, p.emptyCol))
  }

  ghost predicate Inv(p: Puzzle) {
    WellFormed(p) && OneEmpty(p)
  }

  /** After a new game from any shuffle: the empty slot is (N-1, N-1) and
      is the only empty cell, cell i holds the i-th shuffled id, and the
      grid holds every id of 0 .. N*N-1 once except the last shuffled one,
      which is missing. */
  lemma StartLayout(n: int, perm: seq<int>)
    requires n >= 1 && IsShuffle(perm, n * n)
    ensures Inv(Start(n, perm))
    ensures Start(n, perm).emptyRow == n - 1 && Start(n, perm).emptyCol == n - 1
    ensures forall i :: 0 <= i < n * n - 1 ==> Start(n, perm).cells[i] == Tile(perm[i])
    ensures 0 <= perm[n * n - 1] < n * n
    ensures forall k ::
              Bag(Start(n, perm).cells)[k] == if 0 <= k < n * n && k != perm[n * n - 1] then 1 else 0
  {
    var count := n * n;
    LastIndex(n);
    var cells := Layout(n, perm);
    assert cells == TilesOf(perm[..count - 1]) + [Empty];
    BagAppend(TilesOf(perm[..count - 1]), [Empty]);
    assert Bag([Empty]) == multiset{};
    BagTilesOf(perm[..count - 1]);
    assert perm == perm[..count - 1] + [perm[count - 1]];
    assert multiset(perm) == multiset(perm[..count - 1]) + multiset{perm[count - 1]};
    RangeCount(count, perm[count - 1]);
    forall k
      ensures Bag(cells)[k] == if 0 <= k < count && k != perm[count - 1] then 1 else 0
    {
      RangeCount(count, k);
    }
  }

  // ---------------------------------------------------------------------
  // Moves

  function Abs(x: int): int {
    if x < 0 then -x else x
  }

  /** The click test: the clicked cell is next to the empty slot in the
      same column or in the same row, that is, at taxicab distance one. */
  predicate Adjacent(row: int, col: int, emptyRow: int, emptyCol: int)
    ensures Adjacent(row, col, emptyRow, emptyCol) <==> Abs(row - emptyRow) + Abs(col - emptyCol) == 1
  {
    (Abs(row - emptyRow) == 1 && col == emptyCol) || (Abs(col - emptyCol) == 1 && row == emptyRow)
  }

  /** The win test: cell i holds tile i for every i below N*N - 1, that is,
      the grid less its last cell reads 0, 1, 2, ... in order. */
  predicate Won(p: Puzzle)
    requires |p.cells| == p.n * p.n
  {
    forall i :: 0 <= i < p.n * p.n - 1 ==> p.cells[i] == Tile(i)
  }

  /** An accepted move: the clicked cell's content goes into the old empty
      slot, the clicked cell becomes empty and is the new empty slot, and
      the counter goes up by one. */
  function Slide(p: Puzzle, row: int, col: int): (q: Puzzle)
    requires WellFormed(p)
    requires 0 <= row < p.n && 0 <= col < p.n
    ensures WellFormed(q)
  {
    var e := Index(p.n, p.emptyRow, p.emptyCol);
    var k := Index(p.n, row, col);
    IndexInRange(p.n, p.emptyRow, p.emptyCol);
    IndexInRange(p.n, row, col);
    p.(cells := p.cells[e := p.cells[k]][k := Empty],
       emptyRow := row, emptyCol := col,
       moveCount := p.moveCount + 1)
  }

  /** A click on (row, col): ignored unless next to the empty slot; an
      accepted move is followed by the win test, which stops the clock. */
  function Click(p: Puzzle, row: int, col: int): (q: Puzzle)
    requires WellFormed(p)
    requires 0 <= row < p.n && 0 <= col < p.n
    ensures WellFormed(q)
    ensures !Adjacent(row, col, p.emptyRow, p.emptyCol) ==> q == p
    ensures (q.moveCount == p.moveCount + 1) <==> Adjacent(row, col, p.emptyRow, p.emptyCol)
    ensures q.timerRunning ==> p.timerRunning
  {
    if Adjacent(row, col, p.emptyRow, p.emptyCol) then
      var q := Slide(p, row, col);
      if Won(q) then q.(timerRunning := false) else q
    else
      p
  }

  /** The clock tick adds one second and changes nothing else. */
  function Tick(p: Puzzle): (q: Puzzle)
    requires p.timerRunning
    ensures q.timeElapsed == p.timeElapsed + 1
    ensures q.(timeElapsed := p.timeElapsed) == p
  {
    p.(timeElapsed := p.timeElapsed + 1)
  }

  /** An accepted click moves exactly two cells and changes nothing but the
      grid, the empty slot, the counter and (on a win) the clock. */
  lemma ClickAccepted(p: Puzzle, row: int, col: int)
    requires WellFormed(p)
    requires 0 <= row < p.n && 0 <= col < p.n
    requires Adjacent(row, col, p.emptyRow, p.emptyCol)
    ensures var q := Click(p, row, col);
      && q.cells[Index(p.n, p.emptyRow, p.emptyCol)] == p.cells[Index(p.n, row, col)]
      && q.cells[Index(p.n, row, col)] == Empty
      && (forall i :: 0 <= i < |p.cells| && i !in {Index(p.n, row, col), Index(p.n, p.emptyRow, p.emptyCol)}
                      ==> q.cells[i] == p.cells[i])
      && q.emptyRow == row && q.emptyCol == col
      && q.moveCount == p.moveCount + 1
      && q.n == p.n && q.timeElapsed == p.timeElapsed
      && q.timerRunning == (p.timerRunning && !Won(q))
  {
    var e := Index(p.n, p.emptyRow, p.emptyCol);
    var k := Index(p.n, row, col);
    IndexInRange(p.n, p.emptyRow, p.emptyCol);
    IndexInRange(p.n, row, col);
    IndexUnique(p.n, row, col, p.emptyRow, p.emptyCol);
    var s := Slide(p, row, col);
    assert s.cells == p.cells[e := p.cells[k]][k := Empty];
    var q := Click(p, row, col);
    assert q == if Won(s) then s.(timerRunning := false) else s;
    assert q.cells == s.cells;
    assert q.cells[e] == p.cells[k];
    assert q.cells[k] == Empty;
  }

  /** An accepted move only moves a tile: the multiset of tiles is kept. */
  lemma SlideKeepsBag(p: Puzzle, row: int, col: int)
    requires Inv(p)
    requires 0 <= row < p.n && 0 <= col < p.n
    requires Adjacent(row, col, p.emptyRow, p.emptyCol)
    ensures Bag(Slide(p, row, col).cells) == Bag(p.cells)
  {
    var n := p.n;
    var e := Index(n, p.emptyRow, p.emptyCol);
    var k := Index(n, row, col);
    IndexUnique(n, row, col, p.emptyRow, p.emptyCol);
    var mid := p.cells[e := p.cells[k]];
    var cells' := Slide(p, row, col).cells;
    assert cells' == mid[k := Empty];
    assert mid[k] == p.cells[k];
    assert p.cells[e] == Empty;
    BagUpdate(p.cells, e, p.cells[k]);
    BagUpdate(mid, k, Empty);
    Cancel(Bag(cells'), Bag(p.cells), CellBag(p.cells[k]));
  }

  /** After an accepted move the clicked cell is the only empty one. */
  lemma SlideKeepsOneEmpty(p: Puzzle, row: int, col: int)
    requires Inv(p)
    requires 0 <= row < p.n && 0 <= col < p.n
    requires Adjacent(row, col, p.emptyRow, p.emptyCol)
    ensures OneEmpty(Slide(p, row, col))
  {
    IndexUnique(p.n, row, col, p.emptyRow, p.emptyCol);
  }

  /** Accepted or not, a click keeps exactly one empty cell where the panel
      says it is, and keeps the multiset of tiles on the grid. */
  lemma ClickPreservesInv(p: Puzzle, row: int, col: int)
    requires Inv(p)
    requires 0 <= row < p.n && 0 <= col < p.n
    ensures Inv(Click(p, row, col))
    ensures Bag(Click(p, row, col).cells) == Bag(p.cells)
  {
    if Adjacent(row, col, p.emptyRow, p.emptyCol) {
      assert Click(p, row, col).cells == Slide(p, row, col).cells;
      SlideKeepsOneEmpty(p, row, col);
      SlideKeepsBag(p, row, col);
    }
  }

  /** Clicking the old empty slot right after a move slides the tile back:
      the grid and the empty slot are as before and the counter is up by 2. */
  lemma ClickUndo(p: Puzzle, row: int, col: int)
    requires Inv(p)
    requires 0 <= row < p.n && 0 <= col < p.n
    requires Adjacent(row, col, p.emptyRow, p.emptyCol)
    ensures var q := Click(p, row, col);
      && Adjacent(p.emptyRow, p.emptyCol, q.emptyRow, q.emptyCol)
      && var r := Click(q, p.emptyRow, p.emptyCol);
      && r.cells == p.cells
      && r.emptyRow == p.emptyRow && r.emptyCol == p.emptyCol
      && r.moveCount == p.moveCount + 2
      && r.timeElapsed == p.timeElapsed
  {
  }

  /** The solved start (the identity shuffle) is won, and sliding the tile
      above the empty corner breaks the win with one move counted and the
      clock still running. */
  lemma FirstMoveBreaksWin(n: int)
    requires n >= 2
    ensures var p := Start(n, Range(n * n));
      && Won(p) && Inv(p) && Adjacent(n - 2, n - 1, p.emptyRow, p.emptyCol)
      && var q := Click(p, n - 2, n - 1);
      && !Won(q) && q.moveCount == 1 && q.timerRunning
  {
    var p := Start(n, Range(n * n));
    StartLayout(n, Range(n * n));
    LastIndex(n);
    ClickAccepted(p, n - 2, n - 1);
    var q := Click(p, n - 2, n - 1);
    var k := Index(n, n - 2, n - 1);
    assert k == n * n - 1 - n;
    assert q.cells[k] == Empty;
  }

  /** From the solved start, a move and the click back give the solved
      grid again, with two moves counted and the clock stopped. */
  lemma MoveAndBack(n: int)
    requires n >= 2
    ensures var p := Start(n, Range(n * n));
      && Won(p)
      && var q := Click(p, n - 2, n - 1);
      && !Won(q) && q.moveCount == 1 && q.timerRunning
      && var r := Click(q, n - 1, n - 1);
      && Won(r) && r.cells == p.cells && r.moveCount == 2 && !r.timerRunning
  {
    var p := Start(n, Range(n * n));
    FirstMoveBreaksWin(n);
    ClickUndo(p, n - 2, n - 1);
    ClickAccepted(Click(p, n - 2, n - 1), n - 1, n - 1);
  }

  /** Under the one-empty invariant a won grid has its empty slot in the
      bottom-right corner. */
  lemma WonEmptyCorner(p: Puzzle)
    requires Inv(p) && Won(p)
    ensures p.emptyRow == p.n - 1 && p.emptyCol == p.n - 1
  {
    var n := p.n;
    var e := Index(n, p.emptyRow, p.emptyCol);
    IndexInRange(n, p.emptyRow, p.emptyCol);
    assert p.cells[e] == Empty;
    assert e == n * n - 1;
    LastIndex(n);
    IndexUnique(n, p.emptyRow, p.emptyCol, n - 1, n - 1);
  }

  // ---------------------------------------------------------------------
  // Runs of clicks

  function Run(p: Puzzle, clicks: seq<(int, int)>): (q: Puzzle)
    requires WellFormed(p)
    requires forall j :: 0 <= j < |clicks| ==> 0 <= clicks[j].0 < p.n && 0 <= clicks[j].1 < p.n
    ensures WellFormed(q) && q.n == p.n
    decreases |clicks|
  {
    if clicks == [] then p
    else Run(Click(p, clicks[0].0, clicks[0].1), clicks[1..])
  }

  lemma {:induction false} RunPreservesInv(p: Puzzle, clicks: seq<(int, int)>)
    requires Inv(p)
    requires forall j :: 0 <= j < |clicks| ==> 0 <= clicks[j].0 < p.n && 0 <= clicks[j].1 < p.n
    ensures Inv(Run(p, clicks)) && Bag(Run(p, clicks).cells) == Bag(p.cells)
    decreases |clicks|
  {
    if clicks != [] {
      ClickPreservesInv(p, clicks[0].0, clicks[0].1);
      RunPreservesInv(Click(p, clicks[0].0, clicks[0].1), clicks[1..]);
    }
  }

  /** A grid that lacks a tile below N*N - 1 can never be won. */
  lemma NotWonWithout(p: Puzzle, k: int)
    requires WellFormed(p)
    requires 0 <= k < p.n * p.n - 1 && k !in Bag(p.cells)
    ensures !Won(p)
  {
    if Won(p) {
      BagHas(p.cells, k);
    }
  }

  /** Because the set-up draws N*N ids and drops the last one, a game whose
      last shuffled id is not N*N - 1 lacks a lower tile and is never won,
      whatever the clicks. */
  lemma {:induction false} StartUnwinnable(n: int, perm: seq<int>, clicks: seq<(int, int)>)
    requires n >= 1 && IsShuffle(perm, n * n)
    requires perm[n * n - 1] != n * n - 1
    requires forall j :: 0 <= j < |clicks| ==> 0 <= clicks[j].0 < n && 0 <= clicks[j].1 < n
    ensures !Won(Run(Start(n, perm), clicks))
  {
    StartLayout(n, perm);
    RunPreservesInv(Start(n, perm), clicks);
    NotWonWithout(Run(Start(n, perm), clicks), perm[n * n - 1]);
  }

  // ---------------------------------------------------------------------
  // Score

  /** The final score: 10000 less 10 per second and 5 per move, never
      below zero. */
  function Score(timeElapsed: int, moveCount: int): (r: int)
    ensures r >= 0
    ensures r > 0 <==> 10 * timeElapsed + 5 * moveCount < 10000
    ensures timeElapsed >= 0 && moveCount >= 0 ==> r <= 10000
  {
    Max(0, 10000 - timeElapsed * 10 - moveCount * 5)
  }

  function Max(a: int, b: int): int {
    if a < b then b else a
  }

  lemma ScoreMonotone(t1: int, m1: int, t2: int, m2: int)
    requires t1 <= t2 && m1 <= m2
    ensures Score(t2, m2) <= Score(t1, m1)
  {
  }

  lemma ScoreExamples()
    ensures Score(0, 0) == 10000
    ensures Score(2000, 50) == 0
  {
  }
}

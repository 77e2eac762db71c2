/** The board as the page holds it: a two-dimensional array of cell objects,
    updated in place, one cell at a time. */
module Board {
  import opened Rules
  import opened Neighbours
  import opened Generation

  /** A cell element of the grid. Its coordinates are the two data attributes
      written when the grid is populated and never changed afterwards; `on`
      says whether its class list holds 'on', i.e. whether it is alive. */
  class Cell {
    const x: int
    const y: int
    var on: bool

    constructor (x: int, y: int, on: bool)
      ensures this.x == x && this.y == y && this.on == on
    {
      this.x := x;
      this.y := y;
      this.on := on;
    }
  }

  /** The cells on the board; a slot that was never populated holds null, as an
      unassigned slot of a script array is undefined. */
  ghost function Cells(board: array2<Cell?>): set<Cell>
    reads board
  {
    set i, j | 0 <= i < board.Length0 && 0 <= j < board.Length1 && board[i, j] != null :: board[i, j]
  }

  /** The board invariant: the cell stored at [i][j] carries coordinates (i, j). */
  ghost predicate Coordinated(board: array2<Cell?>)
    reads board
  {
    forall i, j :: 0 <= i < board.Length0 && 0 <= j < board.Length1 && board[i, j] != null ==>
      board[i, j].x == i && board[i, j].y == j
  }

  /** Every slot of the n-by-n square holds a cell. */
  ghost predicate Populated(board: array2<Cell?>, n: nat)
    reads board
  {
    n <= board.Length0 && n <= board.Length1 &&
    forall i, j :: 0 <= i < n && 0 <= j < n ==> board[i, j] != null
  }

  /** The generation the board shows, as alive flags. */
  ghost function Snapshot(board: array2<Cell?>): Grid
    reads board, Cells(board)
  {
    seq(board.Length0, i requires 0 <= i < board.Length0 reads board, Cells(board) =>
      SnapshotRow(board, i))
  }

  ghost function SnapshotRow(board: array2<Cell?>, i: int): seq<bool>
    requires 0 <= i < board.Length0
    reads board, Cells(board)
  {
    seq(board.Length1, j requires 0 <= j < board.Length1 reads board, Cells(board) =>
      board[i, j] != null && board[i, j].on)
  }

  /** The snapshot has the board's shape and shows, slot by slot, whether the
      slot holds a live cell. */
  lemma SnapshotShows(board: array2<Cell?>)
    ensures IsRect(Snapshot(board), board.Length0, board.Length1)
    ensures forall i, j :: 0 <= i < board.Length0 && 0 <= j < board.Length1 ==>
      Snapshot(board)[i][j] == (board[i, j] != null && board[i, j].on)
  {
  }

  /** A board on which only `cell` may differ from the grid `before`: every
      slot shows what `before` shows, except the slot of `cell`, which shows the
      cell's current state. */
  lemma OneCellWritten(board: array2<Cell?>, cell: Cell, before: Grid)
    requires Coordinated(board) && cell in Cells(board)
    requires IsRect(before, board.Length0, board.Length1)
    requires forall i, j :: 0 <= i < board.Length0 && 0 <= j < board.Length1 && board[i, j] != cell ==>
               before[i][j] == (board[i, j] != null && board[i, j].on)
    ensures 0 <= cell.x < board.Length0 && 0 <= cell.y < board.Length1
    ensures Snapshot(board) == before[cell.x := before[cell.x][cell.y := cell.on]]
  {
    var put := before[cell.x := before[cell.x][cell.y := cell.on]];
    var now := Snapshot(board);
    SnapshotShows(board);
    forall i, j | 0 <= i < board.Length0 && 0 <= j < board.Length1
      ensures now[i][j] == put[i][j]
    {
      if board[i, j] == cell {
        assert (i, j) == (cell.x, cell.y);
      }
    }
    GridExt(now, put);
  }

  /** initializeGameState: an empty board of the given shape; every slot is
      still unpopulated. */
  method InitializeGameState(numberOfRows: nat, numberOfCellsPerRow: nat) returns (gameState: array2<Cell?>)
    ensures fresh(gameState)
    ensures gameState.Length0 == numberOfRows && gameState.Length1 == numberOfCellsPerRow
    ensures Cells(gameState) == {}
    ensures Coordinated(gameState)
  {
    gameState := new Cell?[numberOfRows, numberOfCellsPerRow]((i, j) => null);
  }

  /** populateGridElements, without the page elements: fills the
      gameRootLength-by-gameRootLength square row by row with new cells, the cell
      at [i][j] getting coordinates (i, j); `draws[i][j]` stands for the random
      draw that decides whether it starts alive. */
  method PopulateGridElements(board: array2<Cell?>, gameRootLength: nat, draws: Grid)
    requires gameRootLength <= board.Length0 && gameRootLength <= board.Length1
    requires HasSquare(draws, gameRootLength)
    modifies board
    ensures Populated(board, gameRootLength)
    ensures forall i, j :: 0 <= i < gameRootLength && 0 <= j < gameRootLength ==>
      board[i, j] != null && fresh(board[i, j]) &&
      board[i, j].x == i && board[i, j].y == j && board[i, j].on == draws[i][j]
    ensures forall i, j :: 0 <= i < board.Length0 && 0 <= j < board.Length1 ==>
      (i < gameRootLength && j < gameRootLength) || board[i, j] == old(board[i, j])
    ensures old(Coordinated(board)) ==> Coordinated(board)
  {
    var n := gameRootLength;
    for i := 0 to n
      invariant forall a, b :: 0 <= a < i && 0 <= b < n ==>
        board[a, b] != null && fresh(board[a, b]) &&
        board[a, b].x == a && board[a, b].y == b && board[a, b].on == draws[a][b]
      invariant forall a, b :: 0 <= a < board.Length0 && 0 <= b < board.Length1 ==>
        (a < i && b < n) || board[a, b] == old(board[a, b])
    {
      for j := 0 to n
        invariant forall a, b :: ((0 <= a < i && 0 <= b < n) || (a == i && 0 <= b < j)) ==>
          board[a, b] != null && fresh(board[a, b]) &&
          board[a, b].x == a && board[a, b].y == b && board[a, b].on == draws[a][b]
        invariant forall a, b :: 0 <= a < board.Length0 && 0 <= b < board.Length1 ==>
          (a < i && b < n) || (a == i && b < j) || board[a, b] == old(board[a, b])
      {
        var newCell := new Cell(i, j, draws[i][j]);
        board[i, j] := newCell;
      }
    }
  }

  /** A script's `gameState[i] && gameState[i][j]`: the cell in slot (i, j), or
      null for a position off the board or a slot never populated. */
  function CellAt(board: array2<Cell?>, i: int, j: int): Cell?
    reads board
  {
    if 0 <= i < board.Length0 && 0 <= j < board.Length1 then board[i, j] else null
  }

  /** A slot tests as alive exactly when the snapshot shows a live cell there. */
  lemma CellAtShows(board: array2<Cell?>, i: int, j: int)
    ensures (CellAt(board, i, j) != null && CellAt(board, i, j).on) == Alive(Snapshot(board), i, j)
  {
    SnapshotShows(board);
  }

  /** getNeighbourCount: the eight tests in the source's order, each adding one
      when the neighbouring slot exists and holds a live cell. It only reads. */
  method GetNeighbourCount(board: array2<Cell?>, cell: Cell) returns (count: nat)
    requires 0 <= cell.x < board.Length0
    ensures count == NeighbourCount(Snapshot(board), cell.x, cell.y)
    ensures count == |LiveNeighbours(Snapshot(board), cell.x, cell.y)| <= |InBoundsNeighbours(Snapshot(board), cell.x, cell.y)|
  {
    var currentX, currentY := cell.x, cell.y;
    ghost var g := Snapshot(board);
    count := 0;
    // Top left
    var c := CellAt(board, currentX - 1, currentY - 1);
    if c != null && c.on { count := count + 1; }
    CellAtShows(board, currentX - 1, currentY - 1);
    assert count == Bit(Alive(g, currentX - 1, currentY - 1));
    // Above
    c := CellAt(board, currentX, currentY - 1);
    if c != null && c.on { count := count + 1; }
    CellAtShows(board, currentX, currentY - 1);
    assert count == Bit(Alive(g, currentX - 1, currentY - 1)) + Bit(Alive(g, currentX, currentY - 1));
    // Top right
    c := CellAt(board, currentX + 1, currentY - 1);
    if c != null && c.on { count := count + 1; }
    CellAtShows(board, currentX + 1, currentY - 1);
    ghost var above := count;
    assert above == Bit(Alive(g, currentX - 1, currentY - 1)) + Bit(Alive(g, currentX, currentY - 1))
                    + Bit(Alive(g, currentX + 1, currentY - 1));
    // Left
    c := CellAt(board, currentX - 1, currentY);
    if c != null && c.on { count := count + 1; }
    CellAtShows(board, currentX - 1, currentY);
    assert count == above + Bit(Alive(g, currentX - 1, currentY));
    // Right
    c := CellAt(board, currentX + 1, currentY);
    if c != null && c.on { count := count + 1; }
    CellAtShows(board, currentX + 1, currentY);
    ghost var level := count;
    assert level == above + Bit(Alive(g, currentX - 1, currentY)) + Bit(Alive(g, currentX + 1, currentY));
    // Bottom left
    c := CellAt(board, currentX - 1, currentY + 1);
    if c != null && c.on { count := count + 1; }
    CellAtShows(board, currentX - 1, currentY + 1);
    assert count == level + Bit(Alive(g, currentX - 1, currentY + 1));
    // Below
    c := CellAt(board, currentX, currentY + 1);
    if c != null && c.on { count := count + 1; }
    CellAtShows(board, currentX, currentY + 1);
    assert count == level + Bit(Alive(g, currentX - 1, currentY + 1)) + Bit(Alive(g, currentX, currentY + 1));
    // Bottom right
    c := CellAt(board, currentX + 1, currentY + 1);
    if c != null && c.on { count := count + 1; }
    CellAtShows(board, currentX + 1, currentY + 1);
    assert count == level + Bit(Alive(g, currentX - 1, currentY + 1)) + Bit(Alive(g, currentX, currentY + 1))
                    + Bit(Alive(g, currentX + 1, currentY + 1));
    NeighbourCountUnfolds(g, currentX, currentY);
    NeighbourCountIsLiveNeighbours(g, currentX, currentY);
    NeighbourCountWithinBounds(g, currentX, currentY);
  }

  /** setCellState: reads the cell's state and its neighbour count, then writes
      the rule's verdict into that cell, whether or not it changed; no other
      slot changes. */
  method SetCellState(board: array2<Cell?>, cell: Cell)
    requires Coordinated(board) && cell in Cells(board)
    modifies cell
    ensures 0 <= cell.x < board.Length0 && 0 <= cell.y < board.Length1
    ensures Snapshot(board) == Advance(old(Snapshot(board)), cell.x, cell.y)
  {
    ghost var before := Snapshot(board);
    var isCurrentlyAlive := cell.on;
    var numberOfNeighbours := GetNeighbourCount(board, cell);
    if StateByCount(isCurrentlyAlive, numberOfNeighbours) {
      cell.on := true;
    } else {
      cell.on := false;
    }
    OneCellWritten(board, cell, before);
  }

  /** onGameTick: visits the gameRootLength-by-gameRootLength square in row-major
      order and updates each cell in place, so every visit sees the cells
      visited before it already advanced. */
  method OnGameTick(board: array2<Cell?>, gameRootLength: nat)
    requires Coordinated(board) && Populated(board, gameRootLength)
    modifies Cells(board)
    ensures Snapshot(board) == Tick(old(Snapshot(board)), gameRootLength)
  {
    ghost var g := Snapshot(board);
    var n := gameRootLength;
    for i := 0 to n
      invariant Snapshot(board) == Sweep(g, n, i, 0)
    {
      for j := 0 to n
        invariant Snapshot(board) == Sweep(g, n, i, j)
      {
        var cell := board[i, j];
        assert cell in Cells(board);
        SweepNext(g, n, i, j);
        SetCellState(board, cell);
      }
    }
  }

  /** Reads the alive flags of every slot, row by row, into a grid value. */
  method ReadSnapshot(board: array2<Cell?>) returns (g: Grid)
    ensures g == Snapshot(board)
  {
    SnapshotShows(board);
    g := [];
    for i := 0 to board.Length0
      invariant |g| == i
      invariant forall a :: 0 <= a < i ==> g[a] == Snapshot(board)[a]
    {
      var row: seq<bool> := [];
      for j := 0 to board.Length1
        invariant |row| == j
        invariant forall b :: 0 <= b < j ==> row[b] == Snapshot(board)[i][b]
      {
        var c := board[i, j];
        row := row + [c != null && c.on];
      }
      g := g + [row];
    }
  }

  /** Writes `state` into one cell of the board: only that cell's slot changes. */
  method PutCellState(board: array2<Cell?>, cell: Cell, state: bool)
    requires Coordinated(board) && cell in Cells(board)
    modifies cell
    ensures 0 <= cell.x < board.Length0 && 0 <= cell.y < board.Length1
    ensures Snapshot(board) == old(Snapshot(board))[cell.x := old(Snapshot(board))[cell.x][cell.y := state]]
  {
    ghost var before := Snapshot(board);
    SnapshotShows(board);
    cell.on := state;
    OneCellWritten(board, cell, before);
  }

  /** The simultaneous tick: the counts are taken on a frozen copy of the board,
      so every cell of the square gets the rule's verdict on the old generation. */
  method TickFromSnapshot(board: array2<Cell?>, gameRootLength: nat)
    requires Coordinated(board) && Populated(board, gameRootLength)
    modifies Cells(board)
    ensures Snapshot(board) == NextGen(old(Snapshot(board)), gameRootLength)
  {
    var previous := ReadSnapshot(board);
    var n := gameRootLength;
    SnapshotShows(board);
    PartialNextGenEnds(previous, n);
    for i := 0 to n
      invariant Snapshot(board) == PartialNextGen(previous, n, i, 0)
    {
      for j := 0 to n
        invariant Snapshot(board) == PartialNextGen(previous, n, i, j)
      {
        var cell := board[i, j];
        assert cell in Cells(board);
        PutCellState(board, cell, NewState(previous, i, j));
        PartialNextGenStep(previous, n, i, j);
      }
      PartialNextGenNextRow(previous, n, i);
    }
  }
}

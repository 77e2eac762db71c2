/** One tick of the game on alive-flag grids: the per-cell step (setCellState),
    the row-major in-place sweep that onGameTick performs, and, for comparison,
    the simultaneous next generation computed from a frozen snapshot. */
module Generation {
  import opened Rules
  import opened Neighbours

  /** r has exactly the shape of g. */
  predicate SameShape(r: Grid, g: Grid)
  {
    |r| == |g| && forall i :: 0 <= i < |g| ==> |r[i]| == |g[i]|
  }

  /** The top-left n-by-n square of g exists: onGameTick visits exactly it. */
  predicate HasSquare(g: Grid, n: nat)
  {
    n <= |g| && forall i :: 0 <= i < n ==> n <= |g[i]|
  }

  /** The state the rule gives the cell at (x, y) of g. */
  function NewState(g: Grid, x: int, y: int): bool
    requires 0 <= x < |g| && 0 <= y < |g[x]|
  {
    StateByCount(g[x][y], NeighbourCount(g, x, y))
  }

  /** setCellState on the cell at (x, y): that cell is rewritten with the rule
      applied to its own state and to its neighbour count on g. A position off
      the grid holds no cell, and then nothing is written. */
  function Advance(g: Grid, x: int, y: int): Grid
  {
    if 0 <= x < |g| && 0 <= y < |g[x]| then g[x := g[x][y := NewState(g, x, y)]] else g
  }

  /** setCellState writes the rule's verdict into its own cell and into no other. */
  lemma AdvanceWrites(g: Grid, x: int, y: int, a: int, b: int)
    requires 0 <= a < |g| && 0 <= b < |g[a]|
    ensures SameShape(Advance(g, x, y), g)
    ensures Advance(g, x, y)[a][b] == if (a, b) == (x, y) then NewState(g, x, y) else g[a][b]
  {
  }

  /** (a, b) comes before (i, j) in the row-major order in which onGameTick
      visits the n-by-n square. */
  predicate Before(n: nat, a: int, b: int, i: int, j: int)
  {
    0 <= a < n && 0 <= b < n && (a < i || (a == i && b < j))
  }

  /** (i, j) is a point of the sweep over the n-by-n square: the next cell to
      visit, or (n, 0) once all are visited. */
  predicate SweepPoint(n: nat, i: nat, j: nat)
  {
    (i < n && j <= n) || (i == n && j == 0)
  }

  /** The grid onGameTick has made of g when it is about to visit (i, j) of the
      n-by-n square: the grid at the next point is this one advanced at (i, j). */
  function Sweep(g: Grid, n: nat, i: nat, j: nat): (r: Grid)
    ensures SameShape(r, g)
    decreases i, j
  {
    if j == 0 then
      if i == 0 then g else Sweep(g, n, i - 1, n)
    else
      Advance(Sweep(g, n, i, j - 1), i, j - 1)
  }

  /** The grid onGameTick leaves: every cell of the n-by-n square visited once. */
  function Tick(g: Grid, n: nat): Grid
  {
    Sweep(g, n, n, 0)
  }

  /** A cell not yet visited still holds its old state. */
  lemma {:induction false} SweepLeavesUnvisited(g: Grid, n: nat, i: nat, j: nat, a: int, b: int)
    requires SweepPoint(n, i, j)
    requires 0 <= a < |g| && 0 <= b < |g[a]| && !Before(n, a, b, i, j)
    ensures Sweep(g, n, i, j)[a][b] == g[a][b]
    decreases i, j
  {
    if j == 0 {
      if i > 0 {
        SweepLeavesUnvisited(g, n, i - 1, n, a, b);
      }
    } else {
      SweepLeavesUnvisited(g, n, i, j - 1, a, b);
      AdvanceWrites(Sweep(g, n, i, j - 1), i, j - 1, a, b);
    }
  }

  /** Once visited, a cell keeps the value its visit wrote until the end of the sweep. */
  lemma {:induction false} SweepSettled(g: Grid, n: nat, a: nat, b: nat, i: nat, j: nat)
    requires SweepPoint(n, i, j)
    requires Before(n, a, b, i, j) && a < |g| && b < |g[a]|
    ensures Sweep(g, n, i, j)[a][b] == Sweep(g, n, a, b + 1)[a][b]
    decreases i, j
  {
    if j == 0 {
      SweepSettled(g, n, a, b, i - 1, n);
    } else if (a, b) != (i, j - 1) {
      SweepSettled(g, n, a, b, i, j - 1);
      AdvanceWrites(Sweep(g, n, i, j - 1), i, j - 1, a, b);
    }
  }

  /** The visit of (i, j) rewrites cell (i, j) from the grid as it finds it. */
  lemma SweepVisit(g: Grid, n: nat, i: nat, j: nat)
    requires i < |g| && j < |g[i]|
    ensures Sweep(g, n, i, j + 1)[i][j] == NewState(Sweep(g, n, i, j), i, j)
  {
    AdvanceWrites(Sweep(g, n, i, j), i, j, i, j);
  }

  /** What the visit of (i, j) sees: the cells visited before it already hold
      their new values, all other cells still hold the old ones. */
  lemma SweepView(g: Grid, n: nat, i: nat, j: nat, a: int, b: int)
    requires i < n && j < n
    requires 0 <= a < |g| && 0 <= b < |g[a]|
    ensures Sweep(g, n, i, j)[a][b] == if Before(n, a, b, i, j) then Tick(g, n)[a][b] else g[a][b]
  {
    if Before(n, a, b, i, j) {
      SweepSettled(g, n, a, b, i, j);
      SweepSettled(g, n, a, b, n, 0);
    } else {
      SweepLeavesUnvisited(g, n, i, j, a, b);
    }
  }

  /** Every cell of the square ends up with the rule applied to its own old state
      and to its neighbour count on the grid as its visit found it; cells outside
      the square keep their state. */
  lemma TickCell(g: Grid, n: nat, i: int, j: int)
    requires 0 <= i < |g| && 0 <= j < |g[i]|
    ensures SameShape(Tick(g, n), g)
    ensures 0 <= i < n && 0 <= j < n ==>
      Tick(g, n)[i][j] == StateByCount(g[i][j], NeighbourCount(Sweep(g, n, i, j), i, j))
    ensures !(0 <= i < n && 0 <= j < n) ==> Tick(g, n)[i][j] == g[i][j]
  {
    if 0 <= i < n && 0 <= j < n {
      SweepSettled(g, n, i, j, n, 0);
      SweepVisit(g, n, i, j);
      SweepLeavesUnvisited(g, n, i, j, i, j);
    } else {
      SweepLeavesUnvisited(g, n, n, 0, i, j);
    }
  }

  /** Reference: row i of the simultaneous next generation of the n-by-n square,
      every count taken on the frozen grid g. */
  function NextRow(g: Grid, n: nat, i: nat): (row: seq<bool>)
    requires i < |g|
    ensures |row| == |g[i]|
  {
    seq(|g[i]|, j requires 0 <= j < |g[i]| => if i < n && j < n then NewState(g, i, j) else g[i][j])
  }

  /** Reference: the simultaneous next generation of the n-by-n square. */
  function NextGen(g: Grid, n: nat): (r: Grid)
    ensures SameShape(r, g)
  {
    seq(|g|, i requires 0 <= i < |g| => NextRow(g, n, i))
  }

  /** Cell (i, j) of the square takes the rule's verdict on the frozen grid;
      every other cell keeps its state. */
  lemma NextGenAt(g: Grid, n: nat, i: int, j: int)
    requires 0 <= i < |g| && 0 <= j < |g[i]|
    ensures NextGen(g, n)[i][j] ==
      if i < n && j < n then StateByCount(g[i][j], NeighbourCount(g, i, j)) else g[i][j]
  {
  }

  /** Two grids of the same shape that agree cell by cell are equal. */
  lemma GridExt(a: Grid, b: Grid)
    requires SameShape(a, b)
    requires forall i, j :: 0 <= i < |b| && 0 <= j < |b[i]| ==> a[i][j] == b[i][j]
    ensures a == b
  {
    forall i | 0 <= i < |b| ensures a[i] == b[i] {
    }
  }

  /** Writing a cell's own value back leaves the grid as it was. */
  lemma RewriteSame(g: Grid, i: int, j: int)
    requires 0 <= i < |g| && 0 <= j < |g[i]|
    ensures g[i := g[i][j := g[i][j]]] == g
  {
    assert g[i][j := g[i][j]] == g[i];
  }

  /** Every cell of the n-by-n square already holds the state the rule gives it. */
  predicate StillLife(g: Grid, n: nat)
    requires HasSquare(g, n)
  {
    forall i, j {:trigger NewState(g, i, j)} :: 0 <= i < n && 0 <= j < n ==> NewState(g, i, j) == g[i][j]
  }

  /** A still life is exactly a grid the simultaneous rule leaves unchanged. */
  lemma StillLifeIsFixedPoint(g: Grid, n: nat)
    requires HasSquare(g, n)
    ensures StillLife(g, n) <==> NextGen(g, n) == g
  {
    if StillLife(g, n) {
      var r := NextGen(g, n);
      forall a, b | 0 <= a < |g| && 0 <= b < |g[a]| ensures r[a][b] == g[a][b] {
        NextGenAt(g, n, a, b);
      }
      GridExt(r, g);
    }
    if NextGen(g, n) == g {
      forall i, j | 0 <= i < n && 0 <= j < n
        ensures StateByCount(g[i][j], NeighbourCount(g, i, j)) == g[i][j]
      {
        NextGenAt(g, n, i, j);
      }
    }
  }

  /** A still life is also left unchanged by the in-place sweep, visit after visit. */
  lemma {:induction false} StillLifeSurvivesSweep(g: Grid, n: nat, i: nat, j: nat)
    requires HasSquare(g, n) && SweepPoint(n, i, j)
    requires StillLife(g, n)
    ensures Sweep(g, n, i, j) == g
    decreases i, j
  {
    if j == 0 {
      if i > 0 {
        StillLifeSurvivesSweep(g, n, i - 1, n);
      }
    } else {
      var y := j - 1;
      StillLifeSurvivesSweep(g, n, i, y);
      StillCellStays(g, n, i, y);
    }
  }

  /** Advancing one cell of a still life rewrites the value it already holds. */
  lemma StillCellStays(g: Grid, n: nat, i: int, j: int)
    requires HasSquare(g, n) && StillLife(g, n)
    requires 0 <= i < n && 0 <= j < n
    ensures Advance(g, i, j) == g
  {
    assert NewState(g, i, j) == g[i][j];
    RewriteSame(g, i, j);
  }

  /** One more visit advances the cell under the cursor; finishing a row is
      starting the next. */
  lemma SweepNext(g: Grid, n: nat, i: nat, j: nat)
    ensures Sweep(g, n, i, j + 1) == Advance(Sweep(g, n, i, j), i, j)
    ensures Sweep(g, n, i + 1, 0) == Sweep(g, n, i, n)
  {
  }

  /** An all-dead grid is a still life: nothing is ever born from nothing. */
  lemma DeadGridIsStill(g: Grid, n: nat)
    requires HasSquare(g, n)
    requires forall i, j :: 0 <= i < |g| && 0 <= j < |g[i]| ==> !g[i][j]
    ensures StillLife(g, n)
    ensures Tick(g, n) == g
  {
    forall i, j | 0 <= i < n && 0 <= j < n
      ensures StateByCount(g[i][j], NeighbourCount(g, i, j)) == g[i][j]
    {
      NeighbourCountIsLiveNeighbours(g, i, j);
      assert LiveNeighbours(g, i, j) == {};
    }
    StillLifeSurvivesSweep(g, n, n, 0);
  }

  /** A 2-by-2 block of live cells in the middle of a 4-by-4 board. */
  predicate IsBlock(g: Grid)
  {
    IsRect(g, 4, 4) &&
    forall i, j :: 0 <= i < 4 && 0 <= j < 4 ==> g[i][j] == (1 <= i <= 2 && 1 <= j <= 2)
  }

  /** Each block cell has three live neighbours and each cell around it at most
      two, so the rule rewrites every cell with the value it already holds. */
  lemma BlockCellStays(g: Grid, i: int, j: int)
    requires IsBlock(g) && 0 <= i < 4 && 0 <= j < 4
    ensures NewState(g, i, j) == g[i][j]
  {
    NeighbourCountUnfolds(g, i, j);
  }

  /** The block is a still life: neither the in-place tick nor the simultaneous
      generation changes it. */
  lemma BlockIsStill(g: Grid)
    requires IsBlock(g)
    ensures Tick(g, 4) == g
    ensures NextGen(g, 4) == g
  {
    forall i, j | 0 <= i < 4 && 0 <= j < 4 ensures NewState(g, i, j) == g[i][j] {
      BlockCellStays(g, i, j);
    }
    assert StillLife(g, 4);
    StillLifeSurvivesSweep(g, 4, 4, 0);
    StillLifeIsFixedPoint(g, 4);
  }

  /** The cells of the n-by-n square before (i, j) in row-major order already
      hold their next-generation values computed from g; all others still hold g's. */
  function PartialNextGen(g: Grid, n: nat, i: nat, j: nat): (r: Grid)
    ensures SameShape(r, g)
  {
    seq(|g|, a requires 0 <= a < |g| =>
      seq(|g[a]|, b requires 0 <= b < |g[a]| =>
        if Before(n, a, b, i, j) then NewState(g, a, b) else g[a][b]))
  }

  /** Giving cell (i, j) its next-generation value extends the prefix by one cell. */
  lemma PartialNextGenStep(g: Grid, n: nat, i: nat, j: nat)
    requires HasSquare(g, n) && i < n && j < n
    ensures var before := PartialNextGen(g, n, i, j);
      PartialNextGen(g, n, i, j + 1) == before[i := before[i][j := NewState(g, i, j)]]
  {
    var before := PartialNextGen(g, n, i, j);
    var after := PartialNextGen(g, n, i, j + 1);
    var put := before[i := before[i][j := NewState(g, i, j)]];
    forall a, b | 0 <= a < |g| && 0 <= b < |g[a]| ensures after[a][b] == put[a][b] {
    }
    GridExt(after, put);
  }

  /** Finishing row i is starting row i + 1. */
  lemma PartialNextGenNextRow(g: Grid, n: nat, i: nat)
    ensures PartialNextGen(g, n, i, n) == PartialNextGen(g, n, i + 1, 0)
  {
    var r := PartialNextGen(g, n, i, n);
    var s := PartialNextGen(g, n, i + 1, 0);
    forall a, b | 0 <= a < |g| && 0 <= b < |g[a]| ensures r[a][b] == s[a][b] {
    }
    GridExt(r, s);
  }

  /** Before any cell is given its value the grid is g; once every cell of the
      square has been, it is the next generation. */
  lemma PartialNextGenEnds(g: Grid, n: nat)
    requires HasSquare(g, n)
    ensures PartialNextGen(g, n, 0, 0) == g
    ensures PartialNextGen(g, n, n, 0) == NextGen(g, n)
  {
    var r := PartialNextGen(g, n, n, 0);
    forall a, b | 0 <= a < |g| && 0 <= b < |g[a]| ensures r[a][b] == NextGen(g, n)[a][b] {
      NextGenAt(g, n, a, b);
    }
    GridExt(r, NextGen(g, n));
    GridExt(PartialNextGen(g, n, 0, 0), g);
  }

  /** A 3-by-3 grid holding a vertical blinker (a period-2 oscillator): the
      middle column alive, everything else dead. */
  predicate IsBlinker(g: Grid)
  {
    IsRect(g, 3, 3) &&
    !g[0][0] && g[0][1] && !g[0][2] &&
    !g[1][0] && g[1][1] && !g[1][2] &&
    !g[2][0] && g[2][1] && !g[2][2]
  }

  /** The blinker's other phase: the middle row alive, everything else dead. */
  predicate IsFlippedBlinker(g: Grid)
  {
    IsRect(g, 3, 3) &&
    !g[0][0] && !g[0][1] && !g[0][2] &&
    g[1][0] && g[1][1] && g[1][2] &&
    !g[2][0] && !g[2][1] && !g[2][2]
  }

  /** The neighbour counts of the vertical blinker's nine cells. */
  lemma BlinkerCounts(g: Grid)
    requires IsBlinker(g)
    ensures NeighbourCount(g, 0, 0) == 2 && NeighbourCount(g, 0, 1) == 1 && NeighbourCount(g, 0, 2) == 2
    ensures NeighbourCount(g, 1, 0) == 3 && NeighbourCount(g, 1, 1) == 2 && NeighbourCount(g, 1, 2) == 3
    ensures NeighbourCount(g, 2, 0) == 2 && NeighbourCount(g, 2, 1) == 1 && NeighbourCount(g, 2, 2) == 2
  {
    NeighbourCountUnfolds(g, 0, 0); NeighbourCountUnfolds(g, 0, 1); NeighbourCountUnfolds(g, 0, 2);
    NeighbourCountUnfolds(g, 1, 0); NeighbourCountUnfolds(g, 1, 1); NeighbourCountUnfolds(g, 1, 2);
    NeighbourCountUnfolds(g, 2, 0); NeighbourCountUnfolds(g, 2, 1); NeighbourCountUnfolds(g, 2, 2);
  }

  /** The neighbour counts of the horizontal blinker's nine cells. */
  lemma FlippedBlinkerCounts(g: Grid)
    requires IsFlippedBlinker(g)
    ensures NeighbourCount(g, 0, 0) == 2 && NeighbourCount(g, 0, 1) == 3 && NeighbourCount(g, 0, 2) == 2
    ensures NeighbourCount(g, 1, 0) == 1 && NeighbourCount(g, 1, 1) == 2 && NeighbourCount(g, 1, 2) == 1
    ensures NeighbourCount(g, 2, 0) == 2 && NeighbourCount(g, 2, 1) == 3 && NeighbourCount(g, 2, 2) == 2
  {
    NeighbourCountUnfolds(g, 0, 0); NeighbourCountUnfolds(g, 0, 1); NeighbourCountUnfolds(g, 0, 2);
    NeighbourCountUnfolds(g, 1, 0); NeighbourCountUnfolds(g, 1, 1); NeighbourCountUnfolds(g, 1, 2);
    NeighbourCountUnfolds(g, 2, 0); NeighbourCountUnfolds(g, 2, 1); NeighbourCountUnfolds(g, 2, 2);
  }

  /** Under the simultaneous rule a vertical blinker turns horizontal ... */
  lemma BlinkerTurns(g: Grid)
    requires IsBlinker(g)
    ensures IsFlippedBlinker(NextGen(g, 3))
  {
    BlinkerCounts(g);
    NextGenAt(g, 3, 0, 0); NextGenAt(g, 3, 0, 1); NextGenAt(g, 3, 0, 2);
    NextGenAt(g, 3, 1, 0); NextGenAt(g, 3, 1, 1); NextGenAt(g, 3, 1, 2);
    NextGenAt(g, 3, 2, 0); NextGenAt(g, 3, 2, 1); NextGenAt(g, 3, 2, 2);
  }

  /** ... and a horizontal one turns vertical again. */
  lemma BlinkerReturns(g: Grid)
    requires IsFlippedBlinker(g)
    ensures IsBlinker(NextGen(g, 3))
  {
    FlippedBlinkerCounts(g);
    NextGenAt(g, 3, 0, 0); NextGenAt(g, 3, 0, 1); NextGenAt(g, 3, 0, 2);
    NextGenAt(g, 3, 1, 0); NextGenAt(g, 3, 1, 1); NextGenAt(g, 3, 1, 2);
    NextGenAt(g, 3, 2, 0); NextGenAt(g, 3, 2, 1); NextGenAt(g, 3, 2, 2);
  }

  /** The vertical blinker is a single grid. */
  lemma BlinkerUnique(a: Grid, b: Grid)
    requires IsBlinker(a) && IsBlinker(b)
    ensures a == b
  {
    forall i | 0 <= i < 3 ensures a[i] == b[i] {
      assert a[i][0] == b[i][0] && a[i][1] == b[i][1] && a[i][2] == b[i][2];
    }
  }

  /** Under the simultaneous rule the blinker comes back after two generations. */
  lemma BlinkerOscillates(g: Grid)
    requires IsBlinker(g)
    ensures NextGen(g, 3) != g
    ensures NextGen(NextGen(g, 3), 3) == g
  {
    var h := NextGen(g, 3);
    BlinkerTurns(g);
    assert h[0][1] != g[0][1];
    BlinkerReturns(h);
    BlinkerUnique(NextGen(h, 3), g);
  }

  /** The first two visits of onGameTick's sweep over the blinker: (0, 0) has
      two live neighbours and stays dead, then (0, 1) has one and dies. */
  lemma InPlaceFirstVisits(g: Grid)
    requires IsBlinker(g)
    ensures var s := Sweep(g, 3, 0, 2);
      IsRect(s, 3, 3) && !s[0][0] && !s[0][1] && !s[1][0] && s[1][1] && !s[2][0] && s[2][1]
  {
    SweepNext(g, 3, 0, 0);
    var s1 := Sweep(g, 3, 0, 1);
    NeighbourCountUnfolds(g, 0, 0);
    assert !s1[0][0] && s1[0][1] && !s1[0][2] && !s1[1][0] && s1[1][1] && !s1[1][2];
    SweepNext(g, 3, 0, 1);
    NeighbourCountUnfolds(s1, 0, 1);
  }

  /** After the first row of the sweep, (0, 0) and (0, 1) are dead and the middle
      column below them is as it was. */
  lemma InPlaceFirstRow(g: Grid)
    requires IsBlinker(g)
    ensures var s := Sweep(g, 3, 1, 0);
      IsRect(s, 3, 3) && !s[0][0] && !s[0][1] && !s[1][0] && s[1][1] && !s[2][0] && s[2][1]
  {
    InPlaceFirstVisits(g);
    SweepNext(g, 3, 0, 2);
    SweepNext(g, 3, 0, 3);
  }

  /** Under onGameTick's in-place sweep the blinker does not reach its other
      phase: cell (1, 0) is visited after (0, 0) and (0, 1) have already been
      rewritten, sees two live neighbours instead of three and stays dead,
      while the simultaneous rule brings it to life. */
  lemma InPlaceTickBreaksBlinker(g: Grid)
    requires IsBlinker(g)
    ensures Tick(g, 3)[1][0] == false
    ensures NextGen(g, 3)[1][0] == true
    ensures Tick(g, 3) != NextGen(g, 3)
  {
    var s := Sweep(g, 3, 1, 0);
    InPlaceFirstRow(g);
    NeighbourCountUnfolds(s, 1, 0);
    TickCell(g, 3, 1, 0);
    NeighbourCountUnfolds(g, 1, 0);
    NextGenAt(g, 3, 1, 0);
  }
}

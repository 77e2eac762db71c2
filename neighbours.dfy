/** Counting the live cells of a cell's Moore neighbourhood on a bounded grid (getNeighbourCount). */
module Neighbours {

  /** One generation of the board as alive flags: g[x][y] is the cell with
      x-coordinate x and y-coordinate y. */
  type Grid = seq<seq<bool>>

  /** g has `rows` rows of `cols` cells each. */
  predicate IsRect(g: Grid, rows: nat, cols: nat)
  {
    |g| == rows && forall i :: 0 <= i < rows ==> |g[i]| == cols
  }

  /** The position (i, j) holds a live cell. A position off the grid holds no
      cell at all and reads as dead: there is no wrap-around. */
  predicate Alive(g: Grid, i: int, j: int)
  {
    0 <= i < |g| && 0 <= j < |g[i]| && g[i][j]
  }

  function Bit(b: bool): nat
  {
    if b then 1 else 0
  }

  /** The eight positions around (x, y), in the order getNeighbourCount inspects
      them: top left, above, top right, left, right, bottom left, below, bottom right. */
  function NeighbourPositions(x: int, y: int): seq<(int, int)>
  {
    [(x - 1, y - 1), (x, y - 1), (x + 1, y - 1),
     (x - 1, y),                 (x + 1, y),
     (x - 1, y + 1), (x, y + 1), (x + 1, y + 1)]
  }

  /** The count getNeighbourCount accumulates: one for each of the eight
      inspected positions that holds a live cell. */
  function NeighbourCount(g: Grid, x: int, y: int): (count: nat)
    ensures count <= 8
  {
    CountAlive(g, NeighbourPositions(x, y))
  }

  /** (i, j) is one of the eight Moore neighbours of (x, y). */
  predicate IsNeighbour(x: int, y: int, i: int, j: int)
  {
    x - 1 <= i <= x + 1 && y - 1 <= j <= y + 1 && (i, j) != (x, y)
  }

  /** Reference definition: the Moore neighbours of (x, y) that lie on the grid. */
  function InBoundsNeighbours(g: Grid, x: int, y: int): set<(int, int)>
  {
    set i, j | x - 1 <= i <= x + 1 && y - 1 <= j <= y + 1 && IsNeighbour(x, y, i, j)
                 && 0 <= i < |g| && 0 <= j < |g[i]| :: (i, j)
  }

  /** Reference definition: the Moore neighbours of (x, y) that are alive. */
  function LiveNeighbours(g: Grid, x: int, y: int): set<(int, int)>
  {
    set i, j | x - 1 <= i <= x + 1 && y - 1 <= j <= y + 1 && IsNeighbour(x, y, i, j)
                 && Alive(g, i, j) :: (i, j)
  }

  /** Number of live cells among a list of positions. */
  function CountAlive(g: Grid, ps: seq<(int, int)>): (count: nat)
    ensures count <= |ps|
  {
    if ps == [] then 0 else Bit(Alive(g, ps[0].0, ps[0].1)) + CountAlive(g, ps[1..])
  }

  predicate Distinct(ps: seq<(int, int)>)
  {
    forall a, b :: 0 <= a < b < |ps| ==> ps[a] != ps[b]
  }

  /** Counting the live positions of a list without repeats gives the size of the
      set of live positions in it. */
  lemma {:induction false} CountAliveIsCardinality(g: Grid, ps: seq<(int, int)>)
    requires Distinct(ps)
    ensures CountAlive(g, ps) == |set p | p in ps && Alive(g, p.0, p.1)|
  {
    if ps != [] {
      var rest := ps[1..];
      assert Distinct(rest) by {
        forall a, b | 0 <= a < b < |rest| ensures rest[a] != rest[b] {
          assert rest[a] == ps[a + 1] && rest[b] == ps[b + 1];
        }
      }
      CountAliveIsCardinality(g, rest);
      var s := set p | p in rest && Alive(g, p.0, p.1);
      var all := set p | p in ps && Alive(g, p.0, p.1);
      assert ps[0] !in rest by {
        forall b | 0 <= b < |rest| ensures rest[b] != ps[0] {
          assert rest[b] == ps[b + 1];
        }
      }
      assert ps == [ps[0]] + rest;
      if Alive(g, ps[0].0, ps[0].1) {
        assert all == {ps[0]} + s;
      } else {
        assert all == s;
      }
    }
  }

  lemma NeighbourPositionsDistinct(x: int, y: int)
    ensures Distinct(NeighbourPositions(x, y))
  {
  }

  lemma NeighbourPositionsAreTheNeighbours(g: Grid, x: int, y: int)
    ensures LiveNeighbours(g, x, y) == set p | p in NeighbourPositions(x, y) && Alive(g, p.0, p.1)
  {
    var ps := NeighbourPositions(x, y);
    var listed := set p | p in ps && Alive(g, p.0, p.1);
    forall p | p in LiveNeighbours(g, x, y) ensures p in listed {
      var i, j := p.0, p.1;
      assert i == x - 1 || i == x || i == x + 1;
      assert j == y - 1 || j == y || j == y + 1;
    }
  }

  lemma CountAliveCons(g: Grid, p: (int, int), rest: seq<(int, int)>)
    ensures CountAlive(g, [p] + rest) == Bit(Alive(g, p.0, p.1)) + CountAlive(g, rest)
  {
    assert ([p] + rest)[1..] == rest;
  }

  /** The count written out in getNeighbourCount's order of tests. */
  lemma NeighbourCountUnfolds(g: Grid, x: int, y: int)
    ensures NeighbourCount(g, x, y) ==
      Bit(Alive(g, x - 1, y - 1)) + Bit(Alive(g, x, y - 1)) + Bit(Alive(g, x + 1, y - 1)) +
      Bit(Alive(g, x - 1, y)) + Bit(Alive(g, x + 1, y)) +
      Bit(Alive(g, x - 1, y + 1)) + Bit(Alive(g, x, y + 1)) + Bit(Alive(g, x + 1, y + 1))
  {
    var ps := NeighbourPositions(x, y);
    CountAliveCons(g, ps[7], []);
    assert ps[7..] == [ps[7]] + [];
    CountAliveCons(g, ps[6], ps[7..]);
    assert ps[6..] == [ps[6]] + ps[7..];
    CountAliveCons(g, ps[5], ps[6..]);
    assert ps[5..] == [ps[5]] + ps[6..];
    CountAliveCons(g, ps[4], ps[5..]);
    assert ps[4..] == [ps[4]] + ps[5..];
    CountAliveCons(g, ps[3], ps[4..]);
    assert ps[3..] == [ps[3]] + ps[4..];
    CountAliveCons(g, ps[2], ps[3..]);
    assert ps[2..] == [ps[2]] + ps[3..];
    CountAliveCons(g, ps[1], ps[2..]);
    assert ps[1..] == [ps[1]] + ps[2..];
    CountAliveCons(g, ps[0], ps[1..]);
    assert ps == [ps[0]] + ps[1..];
  }

  /** A set drawn from a list has at most as many elements as the list. */
  lemma {:induction false} SetOfListBound(s: set<(int, int)>, ps: seq<(int, int)>)
    requires forall p :: p in s ==> p in ps
    ensures |s| <= |ps|
  {
    if ps != [] {
      var rest := s - {ps[0]};
      forall p | p in rest ensures p in ps[1..] {
        assert p in ps && p != ps[0];
      }
      SetOfListBound(rest, ps[1..]);
    } else {
      assert s == {};
    }
  }

  /** getNeighbourCount counts exactly the live Moore neighbours. */
  lemma {:induction false} NeighbourCountIsLiveNeighbours(g: Grid, x: int, y: int)
    ensures NeighbourCount(g, x, y) == |LiveNeighbours(g, x, y)|
  {
    NeighbourPositionsDistinct(x, y);
    NeighbourPositionsAreTheNeighbours(g, x, y);
    CountAliveIsCardinality(g, NeighbourPositions(x, y));
  }

  /** At most eight Moore neighbours lie on the grid. */
  lemma InBoundsNeighboursAtMostEight(g: Grid, x: int, y: int)
    ensures |InBoundsNeighbours(g, x, y)| <= 8
  {
    var inb := InBoundsNeighbours(g, x, y);
    forall p | p in inb ensures p in NeighbourPositions(x, y) {
      assert p.0 == x - 1 || p.0 == x || p.0 == x + 1;
      assert p.1 == y - 1 || p.1 == y || p.1 == y + 1;
    }
    SetOfListBound(inb, NeighbourPositions(x, y));
  }

  /** The count never exceeds the number of Moore neighbours that lie on the grid. */
  lemma NeighbourCountWithinBounds(g: Grid, x: int, y: int)
    ensures NeighbourCount(g, x, y) <= |InBoundsNeighbours(g, x, y)| <= 8
  {
    NeighbourCountIsLiveNeighbours(g, x, y);
    InBoundsNeighboursAtMostEight(g, x, y);
    var live, inb := LiveNeighbours(g, x, y), InBoundsNeighbours(g, x, y);
    assert live <= inb;
    assert inb == live + (inb - live);
  }

  /** At the top-left corner only three neighbours exist, so at most three are alive. */
  lemma CornerCount(g: Grid)
    ensures NeighbourCount(g, 0, 0) <= |InBoundsNeighbours(g, 0, 0)| <= 3
  {
    NeighbourCountWithinBounds(g, 0, 0);
    var inb := InBoundsNeighbours(g, 0, 0);
    forall p | p in inb ensures p in [(1, 0), (0, 1), (1, 1)] {
      assert p.0 == 0 || p.0 == 1;
      assert p.1 == 0 || p.1 == 1;
    }
    SetOfListBound(inb, [(1, 0), (0, 1), (1, 1)]);
  }
}

/** The transition rule of the game (getStateByCount): Conway's B3/S23 rule. */
module Rules {

  /** Neighbour counts at which a dead cell is born (the "B" part of B3/S23). */
  const Born: set<int> := {3}

  /** Neighbour counts at which a live cell survives (the "S" part of B3/S23). */
  const Survive: set<int> := {2, 3}

  /** Next state of a cell, taken branch by branch as getStateByCount does.
      The contract states the rule in its B/S form, independently of the branches. */
  function StateByCount(isCurrentlyAlive: bool, numberOfNeighbours: int): (newState: bool)
    ensures newState <==> (if isCurrentlyAlive then numberOfNeighbours in Survive else numberOfNeighbours in Born)
    ensures newState <==> numberOfNeighbours == 3 || (isCurrentlyAlive && numberOfNeighbours == 2)
  {
    if isCurrentlyAlive then
      if numberOfNeighbours < 2 then
        false  // under-population
      else if numberOfNeighbours == 2 || numberOfNeighbours == 3 then
        true   // adequate population
      else
        false  // over-population
    else
      if numberOfNeighbours == 3 then
        true   // birth
      else
        false  // stays dead
  }

  /** A live cell dies below two neighbours and above three, and lives on with two or three. */
  lemma LiveCellFate(numberOfNeighbours: int)
    ensures numberOfNeighbours < 2 ==> !StateByCount(true, numberOfNeighbours)
    ensures numberOfNeighbours == 2 || numberOfNeighbours == 3 ==> StateByCount(true, numberOfNeighbours)
    ensures numberOfNeighbours > 3 ==> !StateByCount(true, numberOfNeighbours)
  {
  }

  /** A dead cell comes alive exactly when it has three neighbours. */
  lemma DeadCellFate(numberOfNeighbours: int)
    ensures StateByCount(false, numberOfNeighbours) <==> numberOfNeighbours == 3
  {
  }
}

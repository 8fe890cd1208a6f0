/**
 * Conway's rule, shared by both versions of the engine: the comment block above
 * each `generateNewBoard` lists its four clauses.
 */
module Rules {

  const DEAD := 0
  const ALIVE := 1

  /** 1 for true, 0 for false: what a live neighbour adds to a tally. */
  function Ind(b: bool): nat
  {
    if b then 1 else 0
  }

  /**
   * Whether a cell is alive in the next generation, given whether it is alive now
   * and how many of its neighbours are alive. The four ensures clauses are the
   * four rules: underpopulation, survival, overpopulation and reproduction.
   */
  function NextAlive(alive: bool, n: int): (b: bool)
    ensures alive && n < 2 ==> !b
    ensures alive && (n == 2 || n == 3) ==> b
    ensures alive && n > 3 ==> !b
    ensures !alive ==> (b <==> n == 3)
  {
    n == 3 || (alive && n == 2)
  }
}

/** Conway's B3/S23 rule, as the match in `tick` states it. */
module Rules {

  /** Next liveness of a cell from its current liveness and its number of
      live neighbours. The body follows the source's match arm by arm; the
      contract gives the rule table and its closed form: a cell is alive
      next iff it has three live neighbours, or is alive with two. */
  function NextState(alive: bool, n: nat): (next: bool)
    // underpopulation
    ensures alive && n < 2 ==> !next
    // stable
    ensures alive && (n == 2 || n == 3) ==> next
    // overpopulation
    ensures alive && n > 3 ==> !next
    // reproduction
    ensures !alive && n == 3 ==> next
    // every other dead cell stays dead
    ensures !alive && n != 3 ==> !next
    ensures next <==> n == 3 || (alive && n == 2)
  {
    if alive && n < 2 then false
    else if alive && (n == 2 || n == 3) then true
    else if alive && n > 3 then false
    else if !alive && n == 3 then true
    else alive
  }
}

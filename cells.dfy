/** Model of src/cell.rs: one automaton cell with its home coordinates and its liveness. */
module Cells {

  /** Rust's `u8`, the type of the neighbour count. */
  newtype u8 = n: int | 0 <= n < 0x100

  datatype Cell = Cell(x: nat, y: nat, state: bool) {

    /** `Cell::new(alive, x, y)`. */
    static function New(alive: bool, x: nat, y: nat): (c: Cell)
      ensures c.x == x && c.y == y && c.IsAlive() == alive
    {
      Cell(x, y, alive)
    }

    /** `is_alive()`: the stored state. */
    predicate IsAlive() {
      state
    }

    /** `set_state(&mut self, s)`: the cell is a value, so the update yields the new value. */
    function SetState(s: bool): (c: Cell)
      ensures c.IsAlive() == s
      ensures c.x == x && c.y == y
    {
      this.(state := s)
    }

    /**
     * `next_state(nb_neighbours)` as written: the first test fires on 2 or 3 neighbours
     * whatever the cell's state, so the second test can never be the one that returns true.
     */
    function NextState(nbNeighbours: u8): (r: bool)
      ensures r <==> nbNeighbours == 2 || nbNeighbours == 3
    {
      if nbNeighbours == 2 || nbNeighbours == 3 then
        true
      else if IsAlive() && nbNeighbours == 3 then
        true
      else
        false
    }
  }

  /** `is_alive` returns exactly the stored state: rebuilding the cell from it loses nothing. */
  lemma IsAliveRoundTrip(c: Cell)
    ensures Cell.New(c.IsAlive(), c.x, c.y) == c
  {
  }

  /** Which `return` of `next_state` is taken: the ones at lines 21, 24 and 27. */
  datatype Exit = FirstTest | SecondTest | Fallthrough

  /** The exit taken by `c.next_state(k)`, following the order of its tests. */
  function NextStateExit(c: Cell, k: u8): (e: Exit)
    ensures e == FirstTest <==> k == 2 || k == 3
    ensures e != SecondTest
  {
    if k == 2 || k == 3 then FirstTest
    else if c.IsAlive() && k == 3 then SecondTest
    else Fallthrough
  }

  /** The standard rule B3/S23: born with 3, survives with 2 or 3. */
  function ConwayNext(alive: bool, k: u8): (r: bool)
    ensures r ==> k == 2 || k == 3
    ensures !alive ==> (r <==> k == 3)
  {
    if alive then k == 2 || k == 3 else k == 3
  }

  /** `next_state` returns true exactly when its exit is the first test. */
  lemma NextStateFollowsExit(c: Cell, k: u8)
    ensures c.NextState(k) <==> NextStateExit(c, k) != Fallthrough
  {
  }

  /** The result does not depend on the cell's current state. */
  lemma NextStateIgnoresState(c: Cell, k: u8)
    ensures c.NextState(k) == c.SetState(!c.IsAlive()).NextState(k)
  {
  }

  /** Dead with 0 or 1 neighbours, and with 4 or more. */
  lemma NextStateDeadOutsideTwoThree(c: Cell, k: u8)
    requires k <= 1 || k >= 4
    ensures !c.NextState(k)
  {
  }

  /** The rule as written differs from B3/S23 exactly on a dead cell with two neighbours. */
  lemma NextStateVersusConway(c: Cell, k: u8)
    ensures c.NextState(k) != ConwayNext(c.IsAlive(), k) <==> !c.IsAlive() && k == 2
  {
  }

  /** `set_state` keeps the coordinates and only changes the observable state. */
  lemma SetStateThenIsAlive(c: Cell, s: bool)
    ensures c.SetState(s) == Cell.New(s, c.x, c.y)
  {
  }
}

/** Creating universes and changing their cells between ticks:
    `from_dimensions`, `new`, `clear`, `toggle_cell` and `set_cells`. */
module Mutators {
  import opened Grid

  /** `from_dimensions`: a `width` by `height` universe with every cell dead.
      Zero dimensions are accepted, as in the source; such a universe has no
      cells and no in-bounds coordinate. */
  function FromDimensions(width: nat, height: nat): (u: Universe)
    ensures Valid(u) && u.width == width && u.height == height
    ensures AllDead(u)
  {
    Universe(width, height, seq(width * height, _ => false))
  }

  /** `clear`: every cell dead; dimensions and storage size unchanged. */
  function Clear(u: Universe): (r: Universe)
    ensures r.width == u.width && r.height == u.height && |r.cells| == |u.cells|
    ensures Valid(u) ==> Valid(r)
    ensures AllDead(r)
  {
    u.(cells := seq(|u.cells|, _ => false))
  }

  /** Clearing a universe yields the fresh universe of its dimensions,
      whatever it held before. */
  lemma ClearIsFresh(u: Universe)
    requires Valid(u)
    ensures Clear(u) == FromDimensions(u.width, u.height)
  {
    assert Clear(u).cells == FromDimensions(u.width, u.height).cells;
  }

  /** `toggle_cell`: flips the cell at (row, col) and no other. */
  function ToggleCell(u: Universe, row: nat, col: nat): (r: Universe)
    requires Valid(u) && InBounds(u, row, col)
    ensures Valid(r) && r.width == u.width && r.height == u.height
    ensures Alive(r, row, col) == !Alive(u, row, col)
    ensures forall row': nat, col': nat :: InBounds(u, row', col') && (row', col') != (row, col) ==>
      Alive(r, row', col') == Alive(u, row', col')
  {
    IndexUnique(u, row, col);
    var idx := Index(u, row, col);
    u.(cells := u.cells[idx := !u.cells[idx]])
  }

  /** Toggling the same cell twice restores the universe. */
  lemma {:induction false} ToggleTwice(u: Universe, row: nat, col: nat)
    requires Valid(u) && InBounds(u, row, col)
    ensures ToggleCell(ToggleCell(u, row, col), row, col) == u
  {
    var idx := Index(u, row, col);
    assert ToggleCell(u, row, col).cells == u.cells[idx := !u.cells[idx]];
  }

  /** One round of the `set_cells` loop: (row, col) becomes alive. */
  function SetCell(u: Universe, row: nat, col: nat): (r: Universe)
    requires Valid(u) && InBounds(u, row, col)
    ensures Valid(r) && r.width == u.width && r.height == u.height
    ensures forall row': nat, col': nat :: InBounds(u, row', col') ==>
      Alive(r, row', col') == ((row', col') == (row, col) || Alive(u, row', col'))
  {
    IndexUnique(u, row, col);
    u.(cells := u.cells[Index(u, row, col) := true])
  }

  /** Every listed coordinate is inside the universe. */
  predicate AllInBounds(u: Universe, coords: seq<(nat, nat)>) {
    forall c :: c in coords ==> InBounds(u, c.0, c.1)
  }

  /** `set_cells`: the listed coordinates, in order, are made alive. A cell
      is alive afterwards iff it is listed or was alive before; the
      dimensions do not change. */
  function SetCells(u: Universe, coords: seq<(nat, nat)>): (r: Universe)
    requires Valid(u) && AllInBounds(u, coords)
    ensures Valid(r) && r.width == u.width && r.height == u.height
    ensures forall row: nat, col: nat :: InBounds(u, row, col) ==>
      Alive(r, row, col) == ((row, col) in coords || Alive(u, row, col))
    decreases |coords|
  {
    if |coords| == 0 then u
    else SetCells(SetCell(u, coords[0].0, coords[0].1), coords[1..])
  }

  /** Setting the same cells again changes nothing. */
  lemma {:induction false} SetCellsIdempotent(u: Universe, coords: seq<(nat, nat)>)
    requires Valid(u) && AllInBounds(u, coords)
    ensures SetCells(SetCells(u, coords), coords) == SetCells(u, coords)
  {
    var once := SetCells(u, coords);
    var twice := SetCells(once, coords);
    forall row: nat, col: nat | InBounds(u, row, col)
      ensures Alive(twice, row, col) == Alive(once, row, col)
    {
    }
    Extensionality(twice, once);
  }

  /** Setting a cell that is already alive changes nothing; in particular
      `set_cells` cannot kill a cell. */
  lemma {:induction false} SetCellsOnlyAdds(u: Universe, coords: seq<(nat, nat)>)
    requires Valid(u) && AllInBounds(u, coords)
    requires forall k :: 0 <= k < |coords| ==> Alive(u, coords[k].0, coords[k].1)
    ensures SetCells(u, coords) == u
  {
    var r := SetCells(u, coords);
    forall row: nat, col: nat | InBounds(u, row, col)
      ensures Alive(r, row, col) == Alive(u, row, col)
    {
      if (row, col) in coords {
        var k :| 0 <= k < |coords| && coords[k] == (row, col);
      }
    }
    Extensionality(r, u);
  }

  /** On an all-dead universe, such as a fresh or a cleared one,
      `set_cells` leaves alive exactly the listed coordinates. */
  lemma SetCellsOnFresh(u: Universe, coords: seq<(nat, nat)>)
    requires Valid(u) && AllDead(u) && AllInBounds(u, coords)
    ensures var r := SetCells(u, coords);
      forall row: nat, col: nat :: InBounds(r, row, col) ==> (Alive(r, row, col) <==> (row, col) in coords)
  {
    AllDeadIffNoneAlive(u);
  }
}

/** The demonstration universe built by `new`. */
module Demo {
  import opened Grid
  import opened Mutators

  /** Width and height of the demonstration universe. */
  const Side: nat := 64

  /** A coordinate of the 64 by 64 demonstration universe. */
  type Coord = x: nat | x < 64

  /** The fixed demonstration pattern `new` writes into its universe. */
  const DemoPattern: seq<(Coord, Coord)> := [
      (2, 3), (2, 7), (2, 9), (2, 10), (2, 11), (2, 13), (2, 17), (2, 18), (2, 19), (2, 21),
      (2, 23), (2, 24), (2, 25), (2, 26), (2, 27), (3, 3), (3, 7), (3, 10), (3, 13), (3, 18),
      (3, 21), (3, 23), (3, 25), (3, 27), (4, 3), (4, 7), (4, 10), (4, 13), (4, 18), (4, 23),
      (4, 25), (4, 27), (5, 3), (5, 4), (5, 5), (5, 6), (5, 7), (5, 10), (5, 13), (5, 18),
      (5, 23), (5, 25), (5, 27), (6, 3), (6, 7), (6, 10), (6, 13), (6, 18), (6, 23), (6, 27),
      (7, 3), (7, 7), (7, 10), (7, 18), (7, 23), (7, 27), (8, 3), (8, 7), (8, 9), (8, 10),
      (8, 11), (8, 13), (8, 17), (8, 18), (8, 19), (8, 23), (8, 27), (11, 3), (11, 4), (11, 5),
      (11, 7), (11, 11), (11, 12), (11, 13), (11, 15), (11, 17), (12, 3), (12, 5), (12, 7), (12, 11),
      (12, 15), (12, 17), (13, 3), (13, 5), (13, 7), (13, 11), (13, 15), (13, 17), (14, 3), (14, 4),
      (14, 5), (14, 7), (14, 11), (14, 12), (14, 16), (15, 3), (15, 5), (15, 7), (15, 11), (15, 15),
      (15, 17), (16, 3), (16, 5), (16, 7), (16, 11), (16, 15), (16, 17), (17, 3), (17, 5), (17, 7),
      (17, 8), (17, 9), (17, 11), (17, 12), (17, 13), (17, 15), (17, 17), (17, 19)
    ]

  /** Every coordinate of a pattern of `Coord`s lies on the 64 by 64 grid. */
  lemma PatternFits(pattern: seq<(Coord, Coord)>)
    ensures forall k :: 0 <= k < |pattern| ==> pattern[k].0 < 64 && pattern[k].1 < 64
  {
  }

  /** A fresh universe with `pattern` set alive. */
  function Seeded(width: nat, height: nat, pattern: seq<(nat, nat)>): (u: Universe)
    requires forall k :: 0 <= k < |pattern| ==> pattern[k].0 < height && pattern[k].1 < width
    ensures Valid(u) && u.width == width && u.height == height
    ensures forall row: nat, col: nat :: InBounds(u, row, col) ==>
      Alive(u, row, col) == ((row, col) in pattern)
  {
    var blank := FromDimensions(width, height);
    assert AllInBounds(blank, pattern);
    SetCellsOnFresh(blank, pattern);
    SetCells(blank, pattern)
  }

  /** `new`: the 64 by 64 demonstration universe, alive exactly on the
      demonstration pattern. */
  function New(): (u: Universe)
    ensures Valid(u) && u.width == 64 && u.height == 64
    ensures forall row: nat, col: nat :: InBounds(u, row, col) ==>
      Alive(u, row, col) == ((row, col) in DemoPattern)
  {
    PatternFits(DemoPattern);
    Seeded(Side, Side, DemoPattern)
  }
}

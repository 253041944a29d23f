/** Classic patterns: the block is a still life and the blinker an
    oscillator of period two, on tori large enough that wrapping does not
    interfere. Each pattern is described by a predicate on the universe,
    and a universe with it is built with `from_dimensions` and
    `set_cells`. */
module Patterns {
  import opened Grid
  import opened Rules
  import opened Neighbors
  import opened Step
  import opened Mutators

  /** One cell of a tick on a torus at least two cells high and wide:
      the rule applied to the eight-neighbour count. */
  lemma CellStep(u: Universe, row: nat, col: nat)
    requires Valid(u) && InBounds(u, row, col) && u.width >= 2 && u.height >= 2
    ensures Alive(Tick(u), row, col) == NextState(Alive(u, row, col), TorusCount(u, row, col))
  {
    LiveNeighborsIsTorusCount(u, row, col);
  }

  /** The cells of the 2x2 block in the middle of a 4x4 torus. */
  predicate InBlock(row: nat, col: nat) {
    1 <= row <= 2 && 1 <= col <= 2
  }

  /** A 4x4 torus alive exactly on the block. */
  ghost predicate IsBlock(u: Universe) {
    && Valid(u) && u.width == 4 && u.height == 4
    && forall row: nat, col: nat :: InBounds(u, row, col) ==> (Alive(u, row, col) <==> InBlock(row, col))
  }

  const BlockCells: seq<(nat, nat)> := [(1, 1), (1, 2), (2, 1), (2, 2)]

  /** `set_cells` draws the block on any all-dead 4x4 universe, such as
      `from_dimensions(4, 4)` or a cleared one. */
  lemma BlockExists(u: Universe, coords: seq<(nat, nat)>)
    requires Valid(u) && AllDead(u) && u.width == 4 && u.height == 4
    requires coords == BlockCells
    ensures IsBlock(SetCells(u, coords))
  {
    SetCellsOnFresh(u, coords);
    forall row: nat, col: nat
      ensures (row, col) in BlockCells <==> InBlock(row, col)
    {
      BlockCellsAreBlock(row, col);
    }
  }

  /** The coordinate list `BlockCells` lists exactly the block. */
  lemma BlockCellsAreBlock(row: nat, col: nat)
    ensures (row, col) in BlockCells <==> InBlock(row, col)
  {
    if InBlock(row, col) {
      var k := 2 * (row - 1) + (col - 1);
      assert BlockCells[k] == (row, col);
    }
  }

  // One lemma per row keeps each proof small.
  lemma BlockRow0(u: Universe, col: nat)
    requires IsBlock(u) && col < 4
    ensures Alive(Tick(u), 0, col) == Alive(u, 0, col)
  {
    if col == 0 {
      CellStep(u, 0, 0);
    }
    else if col == 1 {
      CellStep(u, 0, 1);
    }
    else if col == 2 {
      CellStep(u, 0, 2);
    }
    else if col == 3 {
      CellStep(u, 0, 3);
    }
  }

  lemma BlockRow1(u: Universe, col: nat)
    requires IsBlock(u) && col < 4
    ensures Alive(Tick(u), 1, col) == Alive(u, 1, col)
  {
    if col == 0 {
      CellStep(u, 1, 0);
    }
    else if col == 1 {
      CellStep(u, 1, 1);
    }
    else if col == 2 {
      CellStep(u, 1, 2);
    }
    else if col == 3 {
      CellStep(u, 1, 3);
    }
  }

  lemma BlockRow2(u: Universe, col: nat)
    requires IsBlock(u) && col < 4
    ensures Alive(Tick(u), 2, col) == Alive(u, 2, col)
  {
    if col == 0 {
      CellStep(u, 2, 0);
    }
    else if col == 1 {
      CellStep(u, 2, 1);
    }
    else if col == 2 {
      CellStep(u, 2, 2);
    }
    else if col == 3 {
      CellStep(u, 2, 3);
    }
  }

  lemma BlockRow3(u: Universe, col: nat)
    requires IsBlock(u) && col < 4
    ensures Alive(Tick(u), 3, col) == Alive(u, 3, col)
  {
    if col == 0 {
      CellStep(u, 3, 0);
    }
    else if col == 1 {
      CellStep(u, 3, 1);
    }
    else if col == 2 {
      CellStep(u, 3, 2);
    }
    else if col == 3 {
      CellStep(u, 3, 3);
    }
  }

  /** The block is a still life: a tick leaves it unchanged. */
  lemma {:induction false} BlockIsStill(u: Universe)
    requires IsBlock(u)
    ensures Tick(u) == u
  {
    forall row: nat, col: nat | InBounds(u, row, col)
      ensures Alive(Tick(u), row, col) == Alive(u, row, col)
    {
      if row == 0 {
        BlockRow0(u, col);
      }
      else if row == 1 {
        BlockRow1(u, col);
      }
      else if row == 2 {
        BlockRow2(u, col);
      }
      else if row == 3 {
        BlockRow3(u, col);
      }
    }
    Extensionality(Tick(u), u);
  }

  /** The cells of a three-cell line through the middle of a 5x5 torus. */
  predicate HorizontalLine(row: nat, col: nat) {
    row == 2 && 1 <= col <= 3
  }

  predicate VerticalLine(row: nat, col: nat) {
    col == 2 && 1 <= row <= 3
  }

  ghost predicate IsHorizontalBlinker(u: Universe) {
    && Valid(u) && u.width == 5 && u.height == 5
    && forall row: nat, col: nat :: InBounds(u, row, col) ==> (Alive(u, row, col) <==> HorizontalLine(row, col))
  }

  ghost predicate IsVerticalBlinker(u: Universe) {
    && Valid(u) && u.width == 5 && u.height == 5
    && forall row: nat, col: nat :: InBounds(u, row, col) ==> (Alive(u, row, col) <==> VerticalLine(row, col))
  }

  const BlinkerCells: seq<(nat, nat)> := [(2, 1), (2, 2), (2, 3)]

  /** `set_cells` draws the horizontal blinker on any all-dead 5x5
      universe. */
  lemma BlinkerExists(u: Universe, coords: seq<(nat, nat)>)
    requires Valid(u) && AllDead(u) && u.width == 5 && u.height == 5
    requires coords == BlinkerCells
    ensures IsHorizontalBlinker(SetCells(u, coords))
  {
    SetCellsOnFresh(u, coords);
    forall row: nat, col: nat
      ensures (row, col) in BlinkerCells <==> HorizontalLine(row, col)
    {
      BlinkerCellsAreLine(row, col);
    }
  }

  /** The coordinate list `BlinkerCells` lists exactly the horizontal line. */
  lemma BlinkerCellsAreLine(row: nat, col: nat)
    ensures (row, col) in BlinkerCells <==> HorizontalLine(row, col)
  {
    if HorizontalLine(row, col) {
      assert BlinkerCells[col - 1] == (row, col);
    }
  }

  // One lemma per half row keeps each proof small.
  lemma HorizontalRow0Left(u: Universe, col: nat)
    requires IsHorizontalBlinker(u) && col < 3
    ensures Alive(Tick(u), 0, col) <==> VerticalLine(0, col)
  {
    if col == 0 {
      CellStep(u, 0, 0);
    }
    else if col == 1 {
      CellStep(u, 0, 1);
    }
    else if col == 2 {
      CellStep(u, 0, 2);
    }
  }

  lemma HorizontalRow0Right(u: Universe, col: nat)
    requires IsHorizontalBlinker(u) && 3 <= col < 5
    ensures Alive(Tick(u), 0, col) <==> VerticalLine(0, col)
  {
    if col == 3 {
      CellStep(u, 0, 3);
    }
    else if col == 4 {
      CellStep(u, 0, 4);
    }
  }

  lemma HorizontalRow1Left(u: Universe, col: nat)
    requires IsHorizontalBlinker(u) && col < 3
    ensures Alive(Tick(u), 1, col) <==> VerticalLine(1, col)
  {
    if col == 0 {
      CellStep(u, 1, 0);
    }
    else if col == 1 {
      CellStep(u, 1, 1);
    }
    else if col == 2 {
      CellStep(u, 1, 2);
    }
  }

  lemma HorizontalRow1Right(u: Universe, col: nat)
    requires IsHorizontalBlinker(u) && 3 <= col < 5
    ensures Alive(Tick(u), 1, col) <==> VerticalLine(1, col)
  {
    if col == 3 {
      CellStep(u, 1, 3);
    }
    else if col == 4 {
      CellStep(u, 1, 4);
    }
  }

  lemma HorizontalRow2Left(u: Universe, col: nat)
    requires IsHorizontalBlinker(u) && col < 3
    ensures Alive(Tick(u), 2, col) <==> VerticalLine(2, col)
  {
    if col == 0 {
      CellStep(u, 2, 0);
    }
    else if col == 1 {
      CellStep(u, 2, 1);
    }
    else if col == 2 {
      CellStep(u, 2, 2);
    }
  }

  lemma HorizontalRow2Right(u: Universe, col: nat)
    requires IsHorizontalBlinker(u) && 3 <= col < 5
    ensures Alive(Tick(u), 2, col) <==> VerticalLine(2, col)
  {
    if col == 3 {
      CellStep(u, 2, 3);
    }
    else if col == 4 {
      CellStep(u, 2, 4);
    }
  }

  lemma HorizontalRow3Left(u: Universe, col: nat)
    requires IsHorizontalBlinker(u) && col < 3
    ensures Alive(Tick(u), 3, col) <==> VerticalLine(3, col)
  {
    if col == 0 {
      CellStep(u, 3, 0);
    }
    else if col == 1 {
      CellStep(u, 3, 1);
    }
    else if col == 2 {
      CellStep(u, 3, 2);
    }
  }

  lemma HorizontalRow3Right(u: Universe, col: nat)
    requires IsHorizontalBlinker(u) && 3 <= col < 5
    ensures Alive(Tick(u), 3, col) <==> VerticalLine(3, col)
  {
    if col == 3 {
      CellStep(u, 3, 3);
    }
    else if col == 4 {
      CellStep(u, 3, 4);
    }
  }

  lemma HorizontalRow4Left(u: Universe, col: nat)
    requires IsHorizontalBlinker(u) && col < 3
    ensures Alive(Tick(u), 4, col) <==> VerticalLine(4, col)
  {
    if col == 0 {
      CellStep(u, 4, 0);
    }
    else if col == 1 {
      CellStep(u, 4, 1);
    }
    else if col == 2 {
      CellStep(u, 4, 2);
    }
  }

  lemma HorizontalRow4Right(u: Universe, col: nat)
    requires IsHorizontalBlinker(u) && 3 <= col < 5
    ensures Alive(Tick(u), 4, col) <==> VerticalLine(4, col)
  {
    if col == 3 {
      CellStep(u, 4, 3);
    }
    else if col == 4 {
      CellStep(u, 4, 4);
    }
  }

  lemma VerticalRow0Left(u: Universe, col: nat)
    requires IsVerticalBlinker(u) && col < 3
    ensures Alive(Tick(u), 0, col) <==> HorizontalLine(0, col)
  {
    if col == 0 {
      CellStep(u, 0, 0);
    }
    else if col == 1 {
      CellStep(u, 0, 1);
    }
    else if col == 2 {
      CellStep(u, 0, 2);
    }
  }

  lemma VerticalRow0Right(u: Universe, col: nat)
    requires IsVerticalBlinker(u) && 3 <= col < 5
    ensures Alive(Tick(u), 0, col) <==> HorizontalLine(0, col)
  {
    if col == 3 {
      CellStep(u, 0, 3);
    }
    else if col == 4 {
      CellStep(u, 0, 4);
    }
  }

  lemma VerticalRow1Left(u: Universe, col: nat)
    requires IsVerticalBlinker(u) && col < 3
    ensures Alive(Tick(u), 1, col) <==> HorizontalLine(1, col)
  {
    if col == 0 {
      CellStep(u, 1, 0);
    }
    else if col == 1 {
      CellStep(u, 1, 1);
    }
    else if col == 2 {
      CellStep(u, 1, 2);
    }
  }

  lemma VerticalRow1Right(u: Universe, col: nat)
    requires IsVerticalBlinker(u) && 3 <= col < 5
    ensures Alive(Tick(u), 1, col) <==> HorizontalLine(1, col)
  {
    if col == 3 {
      CellStep(u, 1, 3);
    }
    else if col == 4 {
      CellStep(u, 1, 4);
    }
  }

  lemma VerticalRow2Left(u: Universe, col: nat)
    requires IsVerticalBlinker(u) && col < 3
    ensures Alive(Tick(u), 2, col) <==> HorizontalLine(2, col)
  {
    if col == 0 {
      CellStep(u, 2, 0);
    }
    else if col == 1 {
      CellStep(u, 2, 1);
    }
    else if col == 2 {
      CellStep(u, 2, 2);
    }
  }

  lemma VerticalRow2Right(u: Universe, col: nat)
    requires IsVerticalBlinker(u) && 3 <= col < 5
    ensures Alive(Tick(u), 2, col) <==> HorizontalLine(2, col)
  {
    if col == 3 {
      CellStep(u, 2, 3);
    }
    else if col == 4 {
      CellStep(u, 2, 4);
    }
  }

  lemma VerticalRow3Left(u: Universe, col: nat)
    requires IsVerticalBlinker(u) && col < 3
    ensures Alive(Tick(u), 3, col) <==> HorizontalLine(3, col)
  {
    if col == 0 {
      CellStep(u, 3, 0);
    }
    else if col == 1 {
      CellStep(u, 3, 1);
    }
    else if col == 2 {
      CellStep(u, 3, 2);
    }
  }

  lemma VerticalRow3Right(u: Universe, col: nat)
    requires IsVerticalBlinker(u) && 3 <= col < 5
    ensures Alive(Tick(u), 3, col) <==> HorizontalLine(3, col)
  {
    if col == 3 {
      CellStep(u, 3, 3);
    }
    else if col == 4 {
      CellStep(u, 3, 4);
    }
  }

  lemma VerticalRow4Left(u: Universe, col: nat)
    requires IsVerticalBlinker(u) && col < 3
    ensures Alive(Tick(u), 4, col) <==> HorizontalLine(4, col)
  {
    if col == 0 {
      CellStep(u, 4, 0);
    }
    else if col == 1 {
      CellStep(u, 4, 1);
    }
    else if col == 2 {
      CellStep(u, 4, 2);
    }
  }

  lemma VerticalRow4Right(u: Universe, col: nat)
    requires IsVerticalBlinker(u) && 3 <= col < 5
    ensures Alive(Tick(u), 4, col) <==> HorizontalLine(4, col)
  {
    if col == 3 {
      CellStep(u, 4, 3);
    }
    else if col == 4 {
      CellStep(u, 4, 4);
    }
  }

  /** A horizontal blinker turns vertical, and a vertical one horizontal. */
  lemma {:induction false} BlinkerOscillates(u: Universe)
    requires IsHorizontalBlinker(u) || IsVerticalBlinker(u)
    ensures IsHorizontalBlinker(u) ==> IsVerticalBlinker(Tick(u))
    ensures IsVerticalBlinker(u) ==> IsHorizontalBlinker(Tick(u))
  {
    if IsHorizontalBlinker(u) {
      forall row: nat, col: nat | InBounds(u, row, col)
        ensures Alive(Tick(u), row, col) <==> VerticalLine(row, col)
      {
        if row == 0 {
          if col < 3 {
            HorizontalRow0Left(u, col);
          } else {
            HorizontalRow0Right(u, col);
          }
        }
        else if row == 1 {
          if col < 3 {
            HorizontalRow1Left(u, col);
          } else {
            HorizontalRow1Right(u, col);
          }
        }
        else if row == 2 {
          if col < 3 {
            HorizontalRow2Left(u, col);
          } else {
            HorizontalRow2Right(u, col);
          }
        }
        else if row == 3 {
          if col < 3 {
            HorizontalRow3Left(u, col);
          } else {
            HorizontalRow3Right(u, col);
          }
        }
        else if row == 4 {
          if col < 3 {
            HorizontalRow4Left(u, col);
          } else {
            HorizontalRow4Right(u, col);
          }
        }
      }
    }
    if IsVerticalBlinker(u) {
      forall row: nat, col: nat | InBounds(u, row, col)
        ensures Alive(Tick(u), row, col) <==> HorizontalLine(row, col)
      {
        if row == 0 {
          if col < 3 {
            VerticalRow0Left(u, col);
          } else {
            VerticalRow0Right(u, col);
          }
        }
        else if row == 1 {
          if col < 3 {
            VerticalRow1Left(u, col);
          } else {
            VerticalRow1Right(u, col);
          }
        }
        else if row == 2 {
          if col < 3 {
            VerticalRow2Left(u, col);
          } else {
            VerticalRow2Right(u, col);
          }
        }
        else if row == 3 {
          if col < 3 {
            VerticalRow3Left(u, col);
          } else {
            VerticalRow3Right(u, col);
          }
        }
        else if row == 4 {
          if col < 3 {
            VerticalRow4Left(u, col);
          } else {
            VerticalRow4Right(u, col);
          }
        }
      }
    }
  }

  /** One tick changes the blinker: its top middle cell is born. */
  lemma BlinkerChanges(u: Universe)
    requires IsHorizontalBlinker(u)
    ensures Tick(u) != u
  {
    BlinkerOscillates(u);
    assert Alive(Tick(u), 1, 2) != Alive(u, 1, 2);
  }

  /** Two ticks restore the blinker. */
  lemma BlinkerReturns(u: Universe)
    requires IsHorizontalBlinker(u)
    ensures Tick(Tick(u)) == u
  {
    BlinkerOscillates(u);
    BlinkerOscillates(Tick(u));
    Extensionality(Tick(Tick(u)), u);
  }

  /** The blinker has period two: one tick changes it, two restore it. */
  lemma {:induction false} BlinkerPeriodTwo(u: Universe)
    requires IsHorizontalBlinker(u)
    ensures TickN(u, 1) != u
    ensures TickN(u, 2) == u
  {
    var once := Tick(u);
    BlinkerChanges(u);
    BlinkerReturns(u);
    assert TickN(u, 1) == TickN(once, 0) == once;
    assert TickN(u, 2) == TickN(once, 1) == TickN(Tick(once), 0);
  }
}

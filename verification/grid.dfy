/** The state of the simulation: a grid of cells stored row-major in one
    dense sequence of booleans (the source packs the same sequence into a
    bit set; packing has no effect on behaviour). */
module Grid {

  /** `cells[row * width + column]` is the liveness of the cell at
      (row, column); `true` means alive. */
  datatype Universe = Universe(width: nat, height: nat, cells: seq<bool>)

  /** The storage holds exactly one cell per coordinate. */
  predicate Valid(u: Universe) {
    |u.cells| == u.width * u.height
  }

  predicate InBounds(u: Universe, row: nat, col: nat) {
    row < u.height && col < u.width
  }

  /** No cell is alive. */
  predicate AllDead(u: Universe) {
    forall i :: 0 <= i < |u.cells| ==> !u.cells[i]
  }

  /** Row-major position of an in-bounds coordinate; it lies inside the
      storage. */
  function Index(u: Universe, row: nat, col: nat): (i: nat)
    requires InBounds(u, row, col)
    ensures i < u.width * u.height
  {
    RowMajorBounds(u.width, u.height, row, col);
    row * u.width + col
  }

  /** Row and column are read back from an index as the quotient and the
      remainder by the width. */
  lemma IndexDecode(u: Universe, row: nat, col: nat)
    requires InBounds(u, row, col)
    ensures Index(u, row, col) / u.width == row
    ensures Index(u, row, col) % u.width == col
  {
    RowMajorBounds(u.width, u.height, row, col);
  }

  lemma RowMajorBounds(width: nat, height: nat, row: nat, col: nat)
    requires row < height && col < width
    ensures row * width + col < width * height
    ensures (row * width + col) / width == row
    ensures (row * width + col) % width == col
  {
    var i := row * width + col;
    assert row * width + col < row * width + width == (row + 1) * width;
    assert (row + 1) * width <= height * width by {
      MulMonotone(row + 1, height, width);
    }
    DivModUnique(i, width, row, col);
  }

  lemma MulMonotone(a: nat, b: nat, c: nat)
    requires a <= b
    ensures a * c <= b * c
  {
  }

  /** Euclidean division has one quotient-remainder pair. */
  lemma DivModUnique(i: nat, d: nat, q: nat, m: nat)
    requires 0 <= m < d && i == q * d + m
    ensures i / d == q && i % d == m
  {
    var q', m' := i / d, i % d;
    assert i == q' * d + m';
    if q' < q {
      MulMonotone(q' + 1, q, d);
      assert false;
    } else if q' > q {
      MulMonotone(q + 1, q', d);
      assert false;
    }
  }

  /** Every storage position is the index of exactly one in-bounds
      coordinate: the one obtained by dividing by the width. */
  lemma IndexSurjective(u: Universe, i: nat)
    requires Valid(u) && i < |u.cells|
    ensures InBounds(u, i / u.width, i % u.width)
    ensures Index(u, i / u.width, i % u.width) == i
  {
    assert u.width > 0;
    var row, col := i / u.width, i % u.width;
    if row >= u.height {
      MulMonotone(u.height, row, u.width);
      assert false;
    }
    assert i == row * u.width + col;
  }

  /** Distinct in-bounds coordinates occupy distinct positions. */
  lemma IndexInjective(u: Universe, r1: nat, c1: nat, r2: nat, c2: nat)
    requires InBounds(u, r1, c1) && InBounds(u, r2, c2)
    ensures Index(u, r1, c1) == Index(u, r2, c2) <==> r1 == r2 && c1 == c2
  {
    IndexDecode(u, r1, c1);
    IndexDecode(u, r2, c2);
  }

  /** No other in-bounds coordinate shares the index of (row, col). */
  lemma IndexUnique(u: Universe, row: nat, col: nat)
    requires InBounds(u, row, col)
    ensures forall row': nat, col': nat :: InBounds(u, row', col') && (row', col') != (row, col) ==>
      Index(u, row', col') != Index(u, row, col)
  {
    forall row': nat, col': nat | InBounds(u, row', col') && (row', col') != (row, col)
      ensures Index(u, row', col') != Index(u, row, col)
    {
      IndexInjective(u, row', col', row, col);
    }
  }

  /** Liveness of an in-bounds cell. */
  function Alive(u: Universe, row: nat, col: nat): bool
    requires Valid(u) && InBounds(u, row, col)
  {
    u.cells[Index(u, row, col)]
  }

  /** Two grids of the same dimensions that agree on every coordinate are
      the same grid. */
  lemma Extensionality(a: Universe, b: Universe)
    requires Valid(a) && Valid(b)
    requires a.width == b.width && a.height == b.height
    requires forall row: nat, col: nat :: InBounds(a, row, col) ==> Alive(a, row, col) == Alive(b, row, col)
    ensures a == b
  {
    forall i | 0 <= i < |a.cells|
      ensures a.cells[i] == b.cells[i]
    {
      IndexSurjective(a, i);
      assert Alive(a, i / a.width, i % a.width) == Alive(b, i / a.width, i % a.width);
    }
  }

  /** Every cell of an all-dead grid is dead, and conversely. */
  lemma AllDeadIffNoneAlive(u: Universe)
    requires Valid(u)
    ensures AllDead(u) <==> forall row: nat, col: nat :: InBounds(u, row, col) ==> !Alive(u, row, col)
  {
    if forall row: nat, col: nat :: InBounds(u, row, col) ==> !Alive(u, row, col) {
      forall i | 0 <= i < |u.cells|
        ensures !u.cells[i]
      {
        IndexSurjective(u, i);
        assert !Alive(u, i / u.width, i % u.width);
      }
    }
  }

  /** `width()`, `height()` and `get_cells()` of the source: read-only
      accessors. */
  function Width(u: Universe): nat { u.width }

  function Height(u: Universe): nat { u.height }

  function GetCells(u: Universe): seq<bool> { u.cells }
}

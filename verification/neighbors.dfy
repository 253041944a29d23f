/** Counting the live neighbours of a cell on the torus, the way
    `live_neighbor_count` does it: every offset is written as a
    non-negative number (`height - 1`, `0`, `1` for rows and `width - 1`,
    `0`, `1` for columns) and reduced modulo the dimension, so no negative
    arithmetic appears. */
module Neighbors {
  import opened Grid

  /** The three offsets along an axis of length `n`, in the source's
      order: one step back (as `n - 1`), none, one step forward. */
  function Deltas(n: nat): (d: seq<nat>)
    requires n > 0
  {
    [n - 1, 0, 1]
  }

  /** 1 if the cell is alive, 0 if it is dead. */
  function Live(u: Universe, row: nat, col: nat): nat
    requires Valid(u) && InBounds(u, row, col)
  {
    if Alive(u, row, col) then 1 else 0
  }

  /** What the offset pair (dRow, dCol) adds to the count. The pair whose
      two offsets are both zero is skipped; the test is on the offset
      values, exactly as in the source. */
  function Contribution(u: Universe, row: nat, col: nat, dRow: nat, dCol: nat): nat
    requires Valid(u) && InBounds(u, row, col)
  {
    if dRow == 0 && dCol == 0 then 0
    else Live(u, (row + dRow) % u.height, (col + dCol) % u.width)
  }

  /** Contributions of row offset `dRow` with the first `k` column offsets. */
  function RowSum(u: Universe, row: nat, col: nat, dRow: nat, k: nat): (s: nat)
    requires Valid(u) && InBounds(u, row, col) && k <= 3
    ensures s <= k
    ensures dRow == 0 && k >= 2 ==> s <= k - 1
  {
    if k == 0 then 0
    else RowSum(u, row, col, dRow, k - 1) + Contribution(u, row, col, dRow, Deltas(u.width)[k - 1])
  }

  /** Contributions of the first `k` row offsets with all column offsets:
      the count after `k` rounds of the source's outer loop. */
  function PartialCount(u: Universe, row: nat, col: nat, k: nat): (s: nat)
    requires Valid(u) && InBounds(u, row, col) && k <= 3
    ensures s <= 3 * k
    ensures k >= 2 ==> s <= 3 * k - 1
  {
    if k == 0 then 0
    else PartialCount(u, row, col, k - 1) + RowSum(u, row, col, Deltas(u.height)[k - 1], 3)
  }

  /** `live_neighbor_count`: the number of live cells among the wrapped
      neighbours of (row, col). At most eight offset pairs are counted,
      each adding 0 or 1. */
  function LiveNeighbors(u: Universe, row: nat, col: nat): (n: nat)
    requires Valid(u) && InBounds(u, row, col)
    ensures n <= 8
  {
    PartialCount(u, row, col, 3)
  }

  /** The count written out as its nine terms, in the source's loop order. */
  lemma LiveNeighborsUnrolled(u: Universe, row: nat, col: nat)
    requires Valid(u) && InBounds(u, row, col)
    ensures var h, w := u.height, u.width;
      LiveNeighbors(u, row, col) ==
        Contribution(u, row, col, h - 1, w - 1) + Contribution(u, row, col, h - 1, 0) + Contribution(u, row, col, h - 1, 1) +
        Contribution(u, row, col, 0, w - 1) + Contribution(u, row, col, 0, 0) + Contribution(u, row, col, 0, 1) +
        Contribution(u, row, col, 1, w - 1) + Contribution(u, row, col, 1, 0) + Contribution(u, row, col, 1, 1)
  {
    var h, w := u.height, u.width;
    forall dRow: nat
      ensures RowSum(u, row, col, dRow, 3) ==
        Contribution(u, row, col, dRow, w - 1) + Contribution(u, row, col, dRow, 0) + Contribution(u, row, col, dRow, 1)
    {
      assert RowSum(u, row, col, dRow, 1) == Contribution(u, row, col, dRow, w - 1);
      assert RowSum(u, row, col, dRow, 2) == RowSum(u, row, col, dRow, 1) + Contribution(u, row, col, dRow, 0);
    }
    assert PartialCount(u, row, col, 1) == RowSum(u, row, col, h - 1, 3);
    assert PartialCount(u, row, col, 2) == PartialCount(u, row, col, 1) + RowSum(u, row, col, 0, 3);
  }

  /** Reference definition: the torus neighbourhood with signed offsets
      reduced by mathematical (Euclidean) modulo. */
  function Wrap(x: int, n: nat): (r: nat)
    requires n > 0
    ensures r < n
  {
    x % n
  }

  /** 1 if the cell at signed offset (dr, dc) from (row, col) is alive. */
  function Neighbor(u: Universe, row: nat, col: nat, dr: int, dc: int): nat
    requires Valid(u) && InBounds(u, row, col)
  {
    Live(u, Wrap(row + dr, u.height), Wrap(col + dc, u.width))
  }

  /** The eight cells around (row, col) on the torus. */
  function TorusCount(u: Universe, row: nat, col: nat): nat
    requires Valid(u) && InBounds(u, row, col)
  {
    Neighbor(u, row, col, -1, -1) + Neighbor(u, row, col, -1, 0) + Neighbor(u, row, col, -1, 1) +
    Neighbor(u, row, col, 0, -1) + Neighbor(u, row, col, 0, 1) +
    Neighbor(u, row, col, 1, -1) + Neighbor(u, row, col, 1, 0) + Neighbor(u, row, col, 1, 1)
  }

  /** Adding `n - 1` modulo `n` steps back by one, for an in-range `x`. */
  lemma StepBack(x: nat, n: nat)
    requires x < n
    ensures (x + (n - 1)) % n == Wrap(x - 1, n)
    ensures (x + 0) % n == Wrap(x + 0, n) == x
  {
    DivModUnique(x, n, 0, x);
    if x == 0 {
      assert (x + (n - 1)) % n == n - 1;
      assert (x - 1) % n == n - 1;
    } else {
      assert (x + (n - 1)) % n == x - 1 by {
        assert x + (n - 1) == (x - 1) + n;
      }
    }
  }

  /** The source offset `d` along an axis of length `n` stands for the
      signed offset `s`. */
  predicate SourceOffset(d: nat, s: int, n: nat) {
    (n > 0 && d == n - 1 && s == -1) || (d == 0 && s == 0) || (d == 1 && s == 1)
  }

  /** Each source offset is the signed offset -1, 0 or +1 in disguise. */
  lemma ContributionIsSigned(u: Universe, row: nat, col: nat, dRow: nat, dCol: nat, sr: int, sc: int)
    requires Valid(u) && InBounds(u, row, col)
    requires SourceOffset(dRow, sr, u.height) && SourceOffset(dCol, sc, u.width)
    ensures Contribution(u, row, col, dRow, dCol) == if dRow == 0 && dCol == 0 then 0 else Neighbor(u, row, col, sr, sc)
  {
    StepBack(row, u.height);
    StepBack(col, u.width);
  }

  /** On a torus at least two cells high and wide, the source's count is
      the usual eight-neighbour count: the offsets `height - 1` and
      `width - 1` are never zero, so only the centre is skipped. */
  lemma {:induction false} LiveNeighborsIsTorusCount(u: Universe, row: nat, col: nat)
    requires Valid(u) && InBounds(u, row, col)
    requires u.width >= 2 && u.height >= 2
    ensures LiveNeighbors(u, row, col) == TorusCount(u, row, col)
  {
    var h, w := u.height, u.width;
    LiveNeighborsUnrolled(u, row, col);
    ContributionIsSigned(u, row, col, h - 1, w - 1, -1, -1);
    ContributionIsSigned(u, row, col, h - 1, 0, -1, 0);
    ContributionIsSigned(u, row, col, h - 1, 1, -1, 1);
    ContributionIsSigned(u, row, col, 0, w - 1, 0, -1);
    ContributionIsSigned(u, row, col, 0, 1, 0, 1);
    ContributionIsSigned(u, row, col, 1, w - 1, 1, -1);
    ContributionIsSigned(u, row, col, 1, 0, 1, 0);
    ContributionIsSigned(u, row, col, 1, 1, 1, 1);
  }

  /** The cell at the origin counts the last row and the last column as
      its neighbours: offsets wrap on both axes. */
  lemma {:induction false} OriginNeighbors(u: Universe)
    requires Valid(u) && u.width >= 2 && u.height >= 2
    ensures var h, w := u.height, u.width;
      LiveNeighbors(u, 0, 0) ==
        Live(u, h - 1, w - 1) + Live(u, h - 1, 0) + Live(u, h - 1, 1) +
        Live(u, 0, w - 1) + Live(u, 0, 1) +
        Live(u, 1, w - 1) + Live(u, 1, 0) + Live(u, 1, 1)
  {
    LiveNeighborsIsTorusCount(u, 0, 0);
    WrapNearZero(u.height);
    WrapNearZero(u.width);
  }

  lemma WrapNearZero(n: nat)
    requires n >= 2
    ensures Wrap(0 - 1, n) == n - 1 && Wrap(0 + 0, n) == 0 && Wrap(0 + 1, n) == 1
  {
    assert 0 - 1 == (-1) * n + (n - 1);
  }

  /** On a grid one cell wide, the column offset `width - 1` is zero too,
      so the source skips more than the centre: a lone live cell on a 1x1
      grid counts itself five times, where the eight-offset torus count
      sees it eight times. */
  lemma OneByOneCountsFive()
    ensures LiveNeighbors(Universe(1, 1, [true]), 0, 0) == 5
    ensures TorusCount(Universe(1, 1, [true]), 0, 0) == 8
  {
    var u := Universe(1, 1, [true]);
    LiveNeighborsUnrolled(u, 0, 0);
    assert Alive(u, 0, 0);
  }

  /** The cells the count of (row, col) can depend on: the centre and its
      eight torus neighbours agree in `a` and `b`. */
  predicate SameNeighborhood(a: Universe, b: Universe, row: nat, col: nat)
    requires Valid(a) && Valid(b) && a.width == b.width && a.height == b.height
    requires InBounds(a, row, col)
  {
    forall dr: int, dc: int :: -1 <= dr <= 1 && -1 <= dc <= 1 ==>
      Neighbor(a, row, col, dr, dc) == Neighbor(b, row, col, dr, dc)
  }

  /** The count of a cell reads nothing but its neighbourhood, for every
      grid shape. */
  lemma {:induction false} CountIsLocal(a: Universe, b: Universe, row: nat, col: nat)
    requires Valid(a) && Valid(b) && a.width == b.width && a.height == b.height
    requires InBounds(a, row, col)
    requires SameNeighborhood(a, b, row, col)
    ensures LiveNeighbors(a, row, col) == LiveNeighbors(b, row, col)
    ensures Alive(a, row, col) == Alive(b, row, col)
  {
    var h, w := a.height, a.width;
    LiveNeighborsUnrolled(a, row, col);
    LiveNeighborsUnrolled(b, row, col);
    ContributionLocal(a, b, row, col, h - 1, w - 1, -1, -1);
    ContributionLocal(a, b, row, col, h - 1, 0, -1, 0);
    ContributionLocal(a, b, row, col, h - 1, 1, -1, 1);
    ContributionLocal(a, b, row, col, 0, w - 1, 0, -1);
    ContributionLocal(a, b, row, col, 0, 1, 0, 1);
    ContributionLocal(a, b, row, col, 1, w - 1, 1, -1);
    ContributionLocal(a, b, row, col, 1, 0, 1, 0);
    ContributionLocal(a, b, row, col, 1, 1, 1, 1);
    CentreLocal(a, b, row, col);
  }

  lemma CentreLocal(a: Universe, b: Universe, row: nat, col: nat)
    requires Valid(a) && Valid(b) && a.width == b.width && a.height == b.height
    requires InBounds(a, row, col)
    requires SameNeighborhood(a, b, row, col)
    ensures Alive(a, row, col) == Alive(b, row, col)
  {
    assert Neighbor(a, row, col, 0, 0) == Neighbor(b, row, col, 0, 0);
    StepBack(row, a.height);
    StepBack(col, a.width);
  }

  lemma ContributionLocal(a: Universe, b: Universe, row: nat, col: nat, dRow: nat, dCol: nat, sr: int, sc: int)
    requires Valid(a) && Valid(b) && a.width == b.width && a.height == b.height
    requires InBounds(a, row, col)
    requires SameNeighborhood(a, b, row, col)
    requires SourceOffset(dRow, sr, a.height) && SourceOffset(dCol, sc, a.width)
    ensures Contribution(a, row, col, dRow, dCol) == Contribution(b, row, col, dRow, dCol)
  {
    ContributionIsSigned(a, row, col, dRow, dCol, sr, sc);
    ContributionIsSigned(b, row, col, dRow, dCol, sr, sc);
    assert Neighbor(a, row, col, sr, sc) == Neighbor(b, row, col, sr, sc);
  }

  /** `live_neighbor_count` as the source writes it: two nested loops over
      the offset lists, skipping the pair of zero offsets. */
  method LiveNeighborCount(u: Universe, row: nat, col: nat) returns (count: nat)
    requires Valid(u) && InBounds(u, row, col)
    ensures count == LiveNeighbors(u, row, col)
    ensures count <= 8
  {
    count := 0;
    var rowDeltas := Deltas(u.height);
    var colDeltas := Deltas(u.width);
    var i := 0;
    while i < 3
      invariant i <= 3
      invariant count == PartialCount(u, row, col, i)
    {
      var j := 0;
      while j < 3
        invariant j <= 3
        invariant count == PartialCount(u, row, col, i) + RowSum(u, row, col, rowDeltas[i], j)
      {
        var dRow, dCol := rowDeltas[i], colDeltas[j];
        if !(dRow == 0 && dCol == 0) {
          var neighborRow := (row + dRow) % u.height;
          var neighborCol := (col + dCol) % u.width;
          var idx := Index(u, neighborRow, neighborCol);
          if u.cells[idx] {
            count := count + 1;
          }
        }
        j := j + 1;
      }
      i := i + 1;
    }
  }
}

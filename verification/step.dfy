/** Advancing the universe by one generation (`tick`). Every new cell is
    computed from the pre-tick grid: the source reads `self.cells` and
    writes a separate buffer `next`, which replaces the cells at the end. */
module Step {
  import opened Grid
  import opened Rules
  import opened Neighbors

  /** The next liveness of the cell stored at position `i`. */
  function NextCell(u: Universe, i: nat): bool
    requires Valid(u) && i < |u.cells|
  {
    IndexSurjective(u, i);
    NextState(u.cells[i], LiveNeighbors(u, i / u.width, i % u.width))
  }

  /** One generation. The dimensions and the storage size are kept, and
      each cell of the result is the rule applied to that cell's liveness
      and neighbour count in the grid BEFORE the tick. */
  function Tick(u: Universe): (r: Universe)
    requires Valid(u)
    ensures Valid(r) && r.width == u.width && r.height == u.height
    ensures |r.cells| == |u.cells|
    ensures forall row: nat, col: nat :: InBounds(u, row, col) ==>
      Alive(r, row, col) == NextState(Alive(u, row, col), LiveNeighbors(u, row, col))
  {
    var r := Universe(u.width, u.height, NextCells(u));
    NextCellsAlive(u, r);
    r
  }

  /** The buffer of verdicts, one per storage position. */
  function NextCells(u: Universe): (next: seq<bool>)
    requires Valid(u)
    ensures |next| == |u.cells|
    ensures forall i :: 0 <= i < |next| ==> next[i] == NextCell(u, i)
  {
    seq(|u.cells|, i requires 0 <= i < |u.cells| => NextCell(u, i))
  }

  /** Read through coordinates, the buffer holds each cell's verdict. */
  lemma NextCellsAlive(u: Universe, r: Universe)
    requires Valid(u) && r == Universe(u.width, u.height, NextCells(u))
    ensures Valid(r)
    ensures forall row: nat, col: nat :: InBounds(u, row, col) ==>
      Alive(r, row, col) == NextState(Alive(u, row, col), LiveNeighbors(u, row, col))
  {
    forall row: nat, col: nat | InBounds(u, row, col)
      ensures Alive(r, row, col) == NextState(Alive(u, row, col), LiveNeighbors(u, row, col))
    {
      NextCellAt(u, row, col);
      assert Index(r, row, col) == Index(u, row, col);
    }
  }

  /** `k` generations. */
  function TickN(u: Universe, k: nat): (r: Universe)
    requires Valid(u)
    ensures Valid(r) && r.width == u.width && r.height == u.height
    decreases k
  {
    if k == 0 then u else TickN(Tick(u), k - 1)
  }

  /** Simultaneity: the new value of a cell depends only on its own
      neighbourhood in the pre-tick grid, so two grids that agree there
      agree on that cell after the tick, whatever the rest of them holds. */
  lemma {:induction false} TickIsLocal(a: Universe, b: Universe, row: nat, col: nat)
    requires Valid(a) && Valid(b) && a.width == b.width && a.height == b.height
    requires InBounds(a, row, col)
    requires SameNeighborhood(a, b, row, col)
    ensures Alive(Tick(a), row, col) == Alive(Tick(b), row, col)
  {
    CountIsLocal(a, b, row, col);
  }

  /** Every cell of an all-dead grid has no live neighbours. */
  lemma {:induction false} DeadGridNoNeighbors(u: Universe, row: nat, col: nat)
    requires Valid(u) && AllDead(u) && InBounds(u, row, col)
    ensures LiveNeighbors(u, row, col) == 0
  {
    AllDeadIffNoneAlive(u);
    LiveNeighborsUnrolled(u, row, col);
  }

  /** An all-dead grid is a fixed point of `tick`. */
  lemma {:induction false} DeadGridIsFixed(u: Universe)
    requires Valid(u) && AllDead(u)
    ensures Tick(u) == u
  {
    forall row: nat, col: nat | InBounds(u, row, col)
      ensures Alive(Tick(u), row, col) == Alive(u, row, col)
    {
      DeadGridNoNeighbors(u, row, col);
    }
    Extensionality(Tick(u), u);
  }

  /** An all-dead grid stays all-dead for any number of generations. */
  lemma {:induction false} DeadGridStaysDead(u: Universe, k: nat)
    requires Valid(u) && AllDead(u)
    ensures TickN(u, k) == u
    decreases k
  {
    if k > 0 {
      calc {
        TickN(u, k);
        TickN(Tick(u), k - 1);
        { DeadGridIsFixed(u); }
        TickN(u, k - 1);
        { DeadGridStaysDead(u, k - 1); }
        u;
      }
    }
  }

  /** The verdict stored at the index of (row, col) is the rule applied to
      that cell and its count. */
  lemma NextCellAt(u: Universe, row: nat, col: nat)
    requires Valid(u) && InBounds(u, row, col)
    ensures NextCell(u, Index(u, row, col)) == NextState(Alive(u, row, col), LiveNeighbors(u, row, col))
  {
    IndexDecode(u, row, col);
  }

  /** A whole row fits in the storage, and the next row starts right after
      it. */
  lemma RowFits(u: Universe, row: nat)
    requires Valid(u) && row < u.height
    ensures row * u.width + u.width == (row + 1) * u.width <= |u.cells|
  {
    MulMonotone(row + 1, u.height, u.width);
  }

  /** A buffer holding every cell's verdict is the cells of `Tick`. */
  lemma BufferIsTick(u: Universe, next: seq<bool>)
    requires Valid(u) && |next| == |u.cells|
    requires forall i :: 0 <= i < |next| ==> next[i] == NextCell(u, i)
    ensures next == Tick(u).cells
  {
  }

  /** `tick` as the source writes it: clone the cells into `next`, visit
      every cell in row-major order reading only the old cells, write the
      rule's verdict into `next`, and swap `next` in at the end. */
  method TickLoop(u: Universe) returns (r: Universe)
    requires Valid(u)
    ensures r == Tick(u)
  {
    var next := u.cells;
    var row := 0;
    var start := 0;  // index of the first cell of `row`
    while row < u.height
      invariant row <= u.height
      invariant start == row * u.width
      invariant |next| == |u.cells|
      invariant forall i :: 0 <= i < start ==> next[i] == NextCell(u, i)
    {
      RowFits(u, row);
      next := TickRow(u, next, row, start);
      row := row + 1;
      start := start + u.width;
    }
    BufferIsTick(u, next);
    r := Universe(u.width, u.height, next);
  }

  /** The inner loop of `tick` over the columns of one row, whose first
      cell is at `start`: afterwards the buffer holds the verdicts of this
      row and of every row before it. */
  method TickRow(u: Universe, next: seq<bool>, row: nat, start: nat) returns (next': seq<bool>)
    requires Valid(u) && row < u.height && start == row * u.width
    requires |next| == |u.cells|
    requires forall i :: 0 <= i < |next| && i < start ==> next[i] == NextCell(u, i)
    ensures |next'| == |u.cells|
    ensures forall i :: 0 <= i < |next'| && i < start + u.width ==> next'[i] == NextCell(u, i)
  {
    RowFits(u, row);
    next' := next;
    var col := 0;
    while col < u.width
      invariant col <= u.width
      invariant |next'| == |u.cells|
      invariant forall i :: 0 <= i < start + col ==> next'[i] == NextCell(u, i)
    {
      var idx := Index(u, row, col);
      var cell := u.cells[idx];
      var liveNeighbors := LiveNeighborCount(u, row, col);
      NextCellAt(u, row, col);
      next' := next'[idx := NextState(cell, liveNeighbors)];
      col := col + 1;
    }
  }
}

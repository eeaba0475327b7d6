/**
 * The dense engine: a universe of width x height cells kept in one vector in
 * row-major order (the cell at column x, row y sits at index y * width + x),
 * advanced one generation at a time by computing every new cell from the
 * previous vector into a clone of it.
 *
 * Width, height and coordinates are unsigned 32-bit values; the model keeps
 * them as naturals and asks that width * height fits in 32 bits, so that no
 * product below wraps around. The neighbour count compares probes with
 * `width as i32` and `height as i32`, so the universe's sizes are `Extent`s,
 * which that cast leaves unchanged.
 */
module DenseGrid {
  import opened LifeRule

  datatype Cell = Dead | Alive

  const U32_LIMIT: nat := 0x1_0000_0000

  /** Row-major position of the cell at column x, row y. */
  function Index(width: nat, x: nat, y: nat): nat
  {
    y * width + x
  }

  lemma IndexInGrid(width: nat, height: nat, x: nat, y: nat)
    requires x < width && y < height
    ensures Index(width, x, y) < width * height
  {
    calc {
      Index(width, x, y);
    <  y * width + width;
    == (y + 1) * width;
    <= { MulMonotonic(y + 1, height, width); }
      height * width;
    }
  }

  lemma MulMonotonic(a: nat, b: nat, c: nat)
    requires a <= b
    ensures a * c <= b * c
  {
    assert b * c == a * c + (b - a) * c;
  }

  /** Row y + 1 starts width cells after row y, and no later than the end of the grid. */
  lemma RowStart(width: nat, height: nat, y: nat)
    requires y <= height
    ensures (y + 1) * width == y * width + width
    ensures y < height ==> (y + 1) * width <= width * height
  {
    if y < height {
      MulMonotonic(y + 1, height, width);
    }
  }

  /** The coordinates can be read back from the row-major index. */
  lemma IndexCoordinates(width: nat, x: nat, y: nat)
    requires x < width
    ensures Index(width, x, y) % width == x && Index(width, x, y) / width == y
  {
    LemmaDivMod(y * width + x, width, y, x);
  }

  lemma LemmaDivMod(n: int, d: int, q: int, r: int)
    requires 0 <= r < d && n == q * d + r
    ensures n % d == r && n / d == q
  {
    var q', r' := n / d, n % d;
    assert n == q' * d + r';
    if q' < q {
      assert (q - q') * d >= d by { MulMonotonic(1, q - q', d); }
    } else if q' > q {
      assert (q' - q) * d >= d by { MulMonotonic(1, q' - q, d); }
    }
  }

  /** A row-major index below width * height lies in a row of the grid. */
  lemma DivBound(k: nat, width: nat, height: nat)
    requires k < width * height
    ensures width > 0 && k / width < height
  {
    if k / width >= height {
      MulMonotonic(height, k / width, width);
    }
  }

  /** Every row-major index is the index of its own coordinates. */
  lemma IndexOfCoordinates(width: nat, k: nat)
    requires width > 0
    ensures Index(width, k % width, k / width) == k
  {
  }

  /**
   * `get_cell_by_position`: the cell at (x, y); indexing past the end of the
   * vector panics. For a column inside the width it is the x-th cell of row y.
   */
  function GetCellByPosition(cells: seq<Cell>, width: nat, x: nat, y: nat): (cell: Cell)
    requires Index(width, x, y) < |cells|
    ensures cell in cells
    ensures x < width && (y + 1) * width <= |cells| ==> cell == cells[y * width .. (y + 1) * width][x]
  {
    cells[Index(width, x, y)]
  }

  /** `set_cell_by_position`: overwrite the cell at (x, y) in place. */
  method SetCellByPosition(cells: array<Cell>, width: nat, x: nat, y: nat, cell: Cell)
    requires Index(width, x, y) < cells.Length
    modifies cells
    ensures cells[..] == old(cells[..])[Index(width, x, y) := cell]
  {
    cells[Index(width, x, y)] := cell;
  }

  /**
   * A set followed by a get at the same position returns the written cell;
   * a get at any other position of the grid sees the old cell.
   */
  lemma GetAfterSet(cells: seq<Cell>, width: nat, x: nat, y: nat, cell: Cell, x': nat, y': nat)
    requires x < width && x' < width
    requires Index(width, x, y) < |cells| && Index(width, x', y') < |cells|
    ensures GetCellByPosition(cells[Index(width, x, y) := cell], width, x, y) == cell
    ensures (x', y') != (x, y) ==>
      GetCellByPosition(cells[Index(width, x, y) := cell], width, x', y') == GetCellByPosition(cells, width, x', y')
  {
    if (x', y') != (x, y) {
      IndexCoordinates(width, x, y);
      IndexCoordinates(width, x', y');
    }
  }

  /** `initialize_cells`: a vector of width * height dead cells, built by pushing one at a time. */
  method InitializeCells(width: nat, height: nat) returns (cells: seq<Cell>)
    requires width * height < U32_LIMIT
    ensures |cells| == width * height
    ensures forall i | 0 <= i < |cells| :: cells[i] == Dead
  {
    var size := width * height;
    cells := [];
    for i := 0 to size
      invariant |cells| == i
      invariant forall k | 0 <= k < i :: cells[k] == Dead
    {
      cells := cells + [Dead];
    }
  }

  /** The grid that `randomize` writes: draw 0 gives a dead cell, any other draw a live one. */
  function Randomized(draws: seq<nat>): (cells: seq<Cell>)
    ensures |cells| == |draws|
    ensures forall i | 0 <= i < |draws| :: (cells[i] == Alive) == (draws[i] != 0)
  {
    seq(|draws|, i requires 0 <= i < |draws| => if draws[i] == 0 then Dead else Alive)
  }

  /** `randomize`: overwrite every cell with the outcome of one draw of the generator. */
  method Randomize(cells: array<Cell>, draws: seq<nat>)
    requires |draws| == cells.Length
    modifies cells
    ensures cells[..] == Randomized(draws)
  {
    for i := 0 to cells.Length
      invariant forall k | 0 <= k < i :: cells[k] == Randomized(draws)[k]
    {
      cells[i] := match draws[i] { case 0 => Dead case _ => Alive };
    }
  }

  /** Whether the cell at position p is inside the grid and alive. */
  predicate AliveAt(cells: seq<Cell>, width: nat, height: nat, p: Pos)
    requires |cells| == width * height
  {
    && InGrid(p, width, height)
    && (IndexInGrid(width, height, p.0, p.1); GetCellByPosition(cells, width, p.0, p.1) == Alive)
  }

  function Live(cells: seq<Cell>, width: nat, height: nat): Pos -> bool
    requires |cells| == width * height
  {
    p => AliveAt(cells, width, height, p)
  }

  /** A position is live exactly when it is in the grid and its cell is alive. */
  lemma LiveAt(cells: seq<Cell>, width: nat, height: nat, p: Pos)
    requires |cells| == width * height
    ensures InGrid(p, width, height) ==> Index(width, p.0, p.1) < |cells|
    ensures Live(cells, width, height)(p) ==
      (InGrid(p, width, height) && GetCellByPosition(cells, width, p.0, p.1) == Alive)
  {
    if InGrid(p, width, height) {
      IndexInGrid(width, height, p.0, p.1);
    }
  }

  /** What `get_alive_neighbours_count` returns for (x, y). */
  function AliveNeighbours(cells: seq<Cell>, width: nat, height: nat, x: int, y: int): nat
    requires |cells| == width * height
  {
    NeighbourCount(x, y, Live(cells, width, height))
  }

  /**
   * `get_alive_neighbours_count`: probe the eight positions around (x, y),
   * skipping the centre and every probe outside [0, width) x [0, height),
   * and count the live cells found.
   */
  method GetAliveNeighboursCount(cells: seq<Cell>, width: Extent, height: Extent, x: nat, y: nat) returns (count: nat)
    requires |cells| == width * height
    ensures count == AliveNeighbours(cells, width, height, x, y)
    ensures count == |LiveNeighbours(x, y, Live(cells, width, height))| <= 8
  {
    ghost var live := Live(cells, width, height);
    ghost var probes: nat := 0;
    count := 0;
    for i := -1 to 2
      invariant probes == (i + 1) * 3
      invariant count == CountProbes(probes, x, y, live)
    {
      for j := -1 to 2
        invariant probes == (i + 1) * 3 + (j + 1)
        invariant count == CountProbes(probes, x, y, live)
      {
        ProbeStep(probes, i, j, x, y, live);
        probes := probes + 1;
        if i == 0 && j == 0 {
          continue;
        }
        var newX := x + i;
        var newY := y + j;
        LiveAt(cells, width, height, (newX, newY));
        if newX < 0 || newX >= width || newY < 0 || newY >= height {
          continue;
        }
        if GetCellByPosition(cells, width, newX, newY) == Alive {
          count := count + 1;
        }
      }
    }
    NeighbourCountIsLiveNeighbours(x, y, Live(cells, width, height));
  }

  /** The match in `run_iteration` that decides a cell's next state; it is B3/S23. */
  function Transition(cell: Cell, aliveNeighbours: nat): (next: Cell)
    ensures (next == Alive) == Rule(cell == Alive, aliveNeighbours)
  {
    match (cell, aliveNeighbours)
    case (Alive, 2) => Alive
    case (Alive, 3) => Alive
    case (Dead, 3) => Alive
    case _ => Dead
  }

  /** The next state of the cell at row-major index k. */
  function NextCell(cells: seq<Cell>, width: nat, height: nat, k: nat): Cell
    requires |cells| == width * height && k < |cells|
  {
    Transition(cells[k], AliveNeighbours(cells, width, height, k % width, k / width))
  }

  /**
   * One generation: every cell's next state, computed from the previous
   * grid alone (the previous vector is only read, the next one only written).
   */
  function Step(cells: seq<Cell>, width: nat, height: nat): (next: seq<Cell>)
    requires |cells| == width * height
    ensures |next| == |cells|
  {
    seq(|cells|, k requires 0 <= k < |cells| => NextCell(cells, width, height, k))
  }

  /** The cell that `Step` puts at (x, y). */
  lemma NextCellAt(cells: seq<Cell>, width: nat, height: nat, x: nat, y: nat)
    requires |cells| == width * height
    requires x < width && y < height
    ensures Index(width, x, y) < |cells|
    ensures NextCell(cells, width, height, Index(width, x, y))
         == Transition(GetCellByPosition(cells, width, x, y), AliveNeighbours(cells, width, height, x, y))
  {
    IndexInGrid(width, height, x, y);
    IndexCoordinates(width, x, y);
  }

  /** A vector holding every cell's next state is the next generation. */
  lemma StepFromCells(cells: seq<Cell>, width: nat, height: nat, next: seq<Cell>)
    requires |cells| == width * height && |next| == |cells|
    requires forall k | 0 <= k < |cells| :: next[k] == NextCell(cells, width, height, k)
    ensures next == Step(cells, width, height)
  {
  }

  /** `n` generations from `cells`. */
  function Generations(cells: seq<Cell>, width: nat, height: nat, n: nat): (last: seq<Cell>)
    requires |cells| == width * height
    ensures |last| == |cells|
  {
    if n == 0 then cells else Step(Generations(cells, width, height, n - 1), width, height)
  }

  /**
   * Every cell of the next generation follows B3/S23 applied to the same
   * cell of the previous generation and its count of live in-grid Moore
   * neighbours in the previous generation.
   */
  lemma StepIsB3S23(cells: seq<Cell>, width: nat, height: nat, x: nat, y: nat)
    requires |cells| == width * height
    requires x < width && y < height
    ensures Index(width, x, y) < |Step(cells, width, height)|
    ensures (Step(cells, width, height)[Index(width, x, y)] == Alive)
        == Rule(GetCellByPosition(cells, width, x, y) == Alive, |LiveNeighbours(x, y, Live(cells, width, height))|)
  {
    IndexInGrid(width, height, x, y);
    IndexCoordinates(width, x, y);
    NeighbourCountIsLiveNeighbours(x, y, Live(cells, width, height));
  }

  predicate AllDead(cells: seq<Cell>)
  {
    forall i | 0 <= i < |cells| :: cells[i] == Dead
  }

  /** A grid with no live cell stays without live cells. */
  lemma AllDeadStaysDead(cells: seq<Cell>, width: nat, height: nat)
    requires |cells| == width * height && AllDead(cells)
    ensures AllDead(Step(cells, width, height))
  {
    var live := Live(cells, width, height);
    forall p ensures !live(p) {
      if 0 <= p.0 < width && 0 <= p.1 < height {
        IndexInGrid(width, height, p.0, p.1);
      }
    }
    forall k | 0 <= k < |cells| ensures Step(cells, width, height)[k] == Dead {
      var x, y := k % width, k / width;
      NeighbourCountIsLiveNeighbours(x, y, live);
      assert LiveNeighbours(x, y, live) == {};
    }
  }

  /** ... and so it does for any number of generations. */
  lemma {:induction false} AllDeadStaysDeadForever(cells: seq<Cell>, width: nat, height: nat, n: nat)
    requires |cells| == width * height && AllDead(cells)
    ensures AllDead(Generations(cells, width, height, n))
  {
    if n > 0 {
      AllDeadStaysDeadForever(cells, width, height, n - 1);
      AllDeadStaysDead(Generations(cells, width, height, n - 1), width, height);
    }
  }

  /** A still life (a grid that one step leaves unchanged) stays unchanged forever. */
  lemma {:induction false} StillLifeForever(cells: seq<Cell>, width: nat, height: nat, n: nat)
    requires |cells| == width * height && Step(cells, width, height) == cells
    ensures Generations(cells, width, height, n) == cells
  {
    if n > 0 {
      StillLifeForever(cells, width, height, n - 1);
    }
  }

  /** A grid that two steps bring back (a period-2 oscillator) is back after every even number of steps. */
  lemma {:induction false} Period2Forever(cells: seq<Cell>, width: nat, height: nat, n: nat)
    requires |cells| == width * height
    requires Step(Step(cells, width, height), width, height) == cells
    ensures Generations(cells, width, height, 2 * n) == cells
    ensures Generations(cells, width, height, 2 * n + 1) == Step(cells, width, height)
  {
    if n > 0 {
      Period2Forever(cells, width, height, n - 1);
    }
  }

  /** `Universe`: the grid dimensions and the cell vector (the timing log is not modelled). */
  class Universe {
    var width: Extent
    var height: Extent
    var cells: array<Cell>

    ghost predicate Valid()
      reads this
    {
      cells.Length == width * height < U32_LIMIT
    }

    constructor (width: Extent, height: Extent, cells: seq<Cell>)
      requires |cells| == width * height < U32_LIMIT
      ensures Valid() && fresh(this.cells)
      ensures this.width == width && this.height == height && this.cells[..] == cells
    {
      this.width := width;
      this.height := height;
      this.cells := new Cell[|cells|](i requires 0 <= i < |cells| => cells[i]);
    }

    /**
     * `run_iteration`: clone the cell vector, compute every cell's next state
     * from the old vector into the clone, row by row, then replace the old
     * vector with the clone.
     */
    method RunIteration()
      requires Valid()
      modifies this
      ensures Valid() && fresh(cells)
      ensures width == old(width) && height == old(height)
      ensures cells[..] == Step(old(cells[..]), width, height)
    {
      var previous := cells[..];
      var newCells := new Cell[|previous|](i requires 0 <= i < |previous| => previous[i]);
      ghost var done: nat := 0;
      for y := 0 to height
        modifies newCells
        invariant done == y * width <= |previous|
        invariant newCells.Length == |previous|
        invariant forall k | 0 <= k < done :: newCells[k] == NextCell(previous, width, height, k)
      {
        RowStart(width, height, y);
        for x := 0 to width
          modifies newCells
          invariant forall k | 0 <= k < done + x :: newCells[k] == NextCell(previous, width, height, k)
        {
          NextCellAt(previous, width, height, x, y);
          var cell := GetCellByPosition(previous, width, x, y);
          var aliveNeighbours := GetAliveNeighboursCount(previous, width, height, x, y);
          var newCell := Transition(cell, aliveNeighbours);
          SetCellByPosition(newCells, width, x, y, newCell);
        }
        done := done + width;
      }
      assert done == width * height;
      StepFromCells(previous, width, height, newCells[..]);
      cells := newCells;
    }
  }

  /**
   * The generation loop of `run_simulation`: build a universe of dead cells,
   * randomize it from the generator's draws, and run `iterations`
   * generations. The cells left at the end are returned (the source only
   * reports the elapsed time).
   */
  method RunSimulation(width: Extent, height: Extent, iterations: nat, draws: seq<nat>) returns (final: seq<Cell>)
    requires width * height < U32_LIMIT
    requires |draws| == width * height
    ensures final == Generations(Randomized(draws), width, height, iterations)
  {
    var cells := InitializeCells(width, height);
    var universe := new Universe(width, height, cells);
    Randomize(universe.cells, draws);
    for i := 0 to iterations
      invariant universe.Valid()
      invariant universe.width == width && universe.height == height
      invariant universe.cells[..] == Generations(Randomized(draws), width, height, i)
    {
      universe.RunIteration();
    }
    final := universe.cells[..];
  }
}

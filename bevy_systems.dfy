/**
 * The Bevy engine: cell entities on a bounded grid, a position -> state
 * index of them (`CellPositions`), and a dirty flag (`CellsChanged`) that
 * says when the index must be rebuilt.
 *
 * Every tick runs five systems in a chain: rebuild the index, count
 * neighbours from the index, apply the rule, rebuild the index, count
 * again. The neighbour counts read only the index, never the cells' states,
 * so the index must be coherent with the cells whenever it is read; the flag
 * is what keeps it so.
 */
module BevySystems {
  import opened LifeRule

  /** A cell entity: its `Position`, `State` and `Neighbors` components. */
  datatype Cell = Cell(position: Pos, alive: bool, neighbors: nat)

  /** The states of the cells, in query order. */
  function States(cells: seq<Cell>): (states: seq<bool>)
    ensures |states| == |cells|
    ensures forall i | 0 <= i < |cells| :: states[i] == cells[i].alive
  {
    seq(|cells|, i requires 0 <= i < |cells| => cells[i].alive)
  }

  /** The positions of the cells, in query order. */
  function Positions(cells: seq<Cell>): (positions: seq<Pos>)
    ensures |positions| == |cells|
    ensures forall i | 0 <= i < |cells| :: positions[i] == cells[i].position
  {
    seq(|cells|, i requires 0 <= i < |cells| => cells[i].position)
  }

  // ------------------------------------------------------ the cell index

  /** The index after inserting the first n cells, in query order, into an empty map. */
  function PositionIndexBelow(cells: seq<Cell>, n: nat): map<Pos, bool>
    requires n <= |cells|
  {
    if n == 0 then map[]
    else PositionIndexBelow(cells, n - 1)[cells[n - 1].position := cells[n - 1].alive]
  }

  /** The index `rebuild_cell_positions` builds: every cell inserted in query order. */
  function PositionIndex(cells: seq<Cell>): map<Pos, bool>
  {
    PositionIndexBelow(cells, |cells|)
  }

  /**
   * The index holds a key for every position some cell sits at and no other,
   * and at each key the state of the last cell at that position.
   */
  lemma {:induction false} PositionIndexBelowAt(cells: seq<Cell>, n: nat, p: Pos)
    requires n <= |cells|
    ensures p in PositionIndexBelow(cells, n) <==> exists i | 0 <= i < n :: cells[i].position == p
    ensures forall i | 0 <= i < n && cells[i].position == p ::
      (forall j | i < j < n :: cells[j].position != p) ==> PositionIndexBelow(cells, n)[p] == cells[i].alive
  {
    if n > 0 {
      PositionIndexBelowAt(cells, n - 1, p);
    }
  }

  /** Cells at distinct positions, as `spawn_cells` creates them. */
  predicate DistinctPositions(cells: seq<Cell>)
  {
    forall i, j | 0 <= i < j < |cells| :: cells[i].position != cells[j].position
  }

  /** With distinct positions the index maps each cell's position to that cell's state. */
  lemma PositionIndexOfDistinct(cells: seq<Cell>, i: nat)
    requires DistinctPositions(cells) && i < |cells|
    ensures cells[i].position in PositionIndex(cells)
    ensures PositionIndex(cells)[cells[i].position] == cells[i].alive
  {
    PositionIndexBelowAt(cells, |cells|, cells[i].position);
  }

  /** The index depends on the positions and states only. */
  lemma {:induction false} PositionIndexBelowCongruent(cells: seq<Cell>, cells': seq<Cell>, n: nat)
    requires Positions(cells) == Positions(cells') && States(cells) == States(cells')
    requires n <= |cells|
    ensures PositionIndexBelow(cells, n) == PositionIndexBelow(cells', n)
  {
    if n > 0 {
      PositionIndexBelowCongruent(cells, cells', n - 1);
      assert cells[n - 1].position == Positions(cells)[n - 1] == cells'[n - 1].position;
      assert cells[n - 1].alive == States(cells)[n - 1] == cells'[n - 1].alive;
    }
  }

  lemma PositionIndexCongruent(cells: seq<Cell>, cells': seq<Cell>)
    requires Positions(cells) == Positions(cells') && States(cells) == States(cells')
    ensures PositionIndex(cells) == PositionIndex(cells')
  {
    PositionIndexBelowCongruent(cells, cells', |cells|);
  }

  // --------------------------------------------------- neighbour counting

  /** What a probe sees: an in-bounds position whose index entry is present and true. */
  function IndexLive(index: map<Pos, bool>, width: nat, height: nat): Pos -> bool
  {
    p => InGrid(p, width, height) && p in index && index[p]
  }

  /** The count of the neighbour closure at `position`, read from the index. */
  function IndexNeighbours(index: map<Pos, bool>, width: nat, height: nat, position: Pos): nat
  {
    NeighbourCount(position.0, position.1, IndexLive(index, width, height))
  }

  /**
   * The closure of `update_neighbors_brute_force_system` for one cell: the
   * eight probes in loop order, out-of-bounds positions and missing keys
   * contributing nothing. The count is stored into `Neighbors` after every
   * pass of the outer loop, so the value left there is the full count.
   */
  method CountNeighbours(index: map<Pos, bool>, width: Extent, height: Extent, position: Pos) returns (neighbors: nat)
    ensures neighbors == IndexNeighbours(index, width, height, position)
    ensures neighbors == |LiveNeighbours(position.0, position.1, IndexLive(index, width, height))| <= 8
  {
    ghost var live := IndexLive(index, width, height);
    ghost var probes: nat := 0;
    var count := 0;
    neighbors := 0;
    for dx := -1 to 2
      invariant probes == (dx + 1) * 3
      invariant count == CountProbes(probes, position.0, position.1, live)
      invariant neighbors == count
    {
      for dy := -1 to 2
        invariant probes == (dx + 1) * 3 + (dy + 1)
        invariant count == CountProbes(probes, position.0, position.1, live)
      {
        ProbeStep(probes, dx, dy, position.0, position.1, live);
        probes := probes + 1;
        if dx == 0 && dy == 0 {
          continue;
        }
        var x := position.0 + dx;
        var y := position.1 + dy;
        if x >= 0 && x < width && y >= 0 && y < height {
          if (x, y) in index {
            var state := index[(x, y)];
            if state {
              count := count + 1;
            }
          }
        }
      }
      neighbors := count;
    }
    NeighbourCountIsLiveNeighbours(position.0, position.1, live);
  }

  /** The cells after the neighbour system: each count read from the index, nothing else changed. */
  function NeighboursFromIndex(cells: seq<Cell>, index: map<Pos, bool>, width: nat, height: nat): (counted: seq<Cell>)
    ensures |counted| == |cells|
    ensures Positions(counted) == Positions(cells) && States(counted) == States(cells)
  {
    seq(|cells|, i requires 0 <= i < |cells| =>
      cells[i].(neighbors := IndexNeighbours(index, width, height, cells[i].position)))
  }

  // ------------------------------------------------------ rule application

  /** The match of `update_cells_system`: B3/S23. */
  function NextAlive(alive: bool, neighbors: nat): (next: bool)
    ensures next == Rule(alive, neighbors)
  {
    match (alive, neighbors)
    case (true, 2) => true
    case (true, 3) => true
    case (false, 3) => true
    case _ => false
  }

  /** The rule changes this cell's state. */
  predicate Flips(cell: Cell)
  {
    NextAlive(cell.alive, cell.neighbors) != cell.alive
  }

  /** The cells after `update_cells_system`: only the states change. */
  function CellsStepped(cells: seq<Cell>): (stepped: seq<Cell>)
    ensures |stepped| == |cells|
    ensures Positions(stepped) == Positions(cells)
  {
    seq(|cells|, i requires 0 <= i < |cells| => cells[i].(alive := NextAlive(cells[i].alive, cells[i].neighbors)))
  }

  /**
   * The rule pass keeps every position and count, reading `Neighbors` only,
   * and makes each state B3/S23 of its old state and cached count.
   */
  lemma CellsSteppedFollowsRule(cells: seq<Cell>, i: nat)
    requires i < |cells|
    ensures CellsStepped(cells)[i].position == cells[i].position
    ensures CellsStepped(cells)[i].neighbors == cells[i].neighbors
    ensures CellsStepped(cells)[i].alive == Rule(cells[i].alive, cells[i].neighbors)
  {
  }

  /** Some cell flips exactly when the rule pass changes the states. */
  lemma FlipsIffStatesChange(cells: seq<Cell>)
    ensures (exists i | 0 <= i < |cells| :: Flips(cells[i])) <==> States(CellsStepped(cells)) != States(cells)
  {
    if exists i | 0 <= i < |cells| :: Flips(cells[i]) {
      var i :| 0 <= i < |cells| && Flips(cells[i]);
      assert States(CellsStepped(cells))[i] != States(cells)[i];
    }
  }

  // -------------------------------------------------------------- the tick

  /** The cells after a whole tick, when the index is coherent at its start. */
  function Tick(cells: seq<Cell>, width: nat, height: nat): (next: seq<Cell>)
    ensures |next| == |cells| && Positions(next) == Positions(cells)
  {
    var counted := NeighboursFromIndex(cells, PositionIndex(cells), width, height);
    var stepped := CellsStepped(counted);
    NeighboursFromIndex(stepped, PositionIndex(stepped), width, height)
  }

  /** The game-of-life resources and cell entities of the Bevy app. */
  class Simulation {
    /** The `Grid` resource; the counting system casts it to `i32`. */
    const width: Extent
    const height: Extent
    /** The cell entities, in query order. */
    var cells: seq<Cell>
    /** The `CellPositions` resource. */
    var cellPositions: map<Pos, bool>
    /** The `CellsChanged` resource. */
    var cellsChanged: bool

    /** The index may be read: it is stale only while the flag is raised. */
    ghost predicate Coherent()
      reads this
    {
      !cellsChanged ==> cellPositions == PositionIndex(cells)
    }

    /** The resources as the plugin inserts them: an empty index and the flag raised. */
    constructor (width: Extent, height: Extent, cells: seq<Cell>)
      ensures this.width == width && this.height == height && this.cells == cells
      ensures cellPositions == map[] && cellsChanged
      ensures Coherent()
    {
      this.width := width;
      this.height := height;
      this.cells := cells;
      cellPositions := map[];
      cellsChanged := true;
    }

    /**
     * `rebuild_cell_positions`: nothing when the flag is down; otherwise
     * refill the index from the cells and lower the flag.
     */
    method RebuildCellPositions()
      modifies this
      ensures cells == old(cells) && !cellsChanged
      ensures old(cellsChanged) ==> cellPositions == PositionIndex(cells)
      ensures !old(cellsChanged) ==> cellPositions == old(cellPositions)
      ensures old(Coherent()) ==> cellPositions == PositionIndex(cells)
    {
      if !cellsChanged {
        return;
      }
      cellPositions := map[];
      for i := 0 to |cells|
        invariant cells == old(cells)
        invariant cellPositions == PositionIndexBelow(cells, i)
      {
        cellPositions := cellPositions[cells[i].position := cells[i].alive];
      }
      cellsChanged := false;
    }

    /** `update_neighbors_brute_force_system`, the cells taken one after another. */
    method UpdateNeighborsBruteForceSystem()
      modifies this
      ensures cells == NeighboursFromIndex(old(cells), cellPositions, width, height)
      ensures cellPositions == old(cellPositions) && cellsChanged == old(cellsChanged)
      ensures old(Coherent()) ==> Coherent()
    {
      ghost var before := cells;
      for i := 0 to |cells|
        invariant |cells| == |before|
        invariant forall k | 0 <= k < i :: cells[k] == NeighboursFromIndex(before, cellPositions, width, height)[k]
        invariant forall k | i <= k < |cells| :: cells[k] == before[k]
        invariant cellPositions == old(cellPositions) && cellsChanged == old(cellsChanged)
      {
        var neighbors := CountNeighbours(cellPositions, width, height, cells[i].position);
        cells := cells[i := cells[i].(neighbors := neighbors)];
      }
      PositionIndexCongruent(before, cells);
    }

    /**
     * `update_cells_system`: apply the rule to every cell and raise the flag
     * when some state changes; the flag is never lowered here.
     */
    method UpdateCellsSystem()
      modifies this
      ensures cells == CellsStepped(old(cells))
      ensures cellsChanged == (old(cellsChanged) || exists i | 0 <= i < |old(cells)| :: Flips(old(cells)[i]))
      ensures cellPositions == old(cellPositions)
      ensures old(Coherent()) ==> Coherent()
    {
      ghost var before := cells;
      for i := 0 to |cells|
        invariant |cells| == |before|
        invariant forall k | 0 <= k < i :: cells[k] == CellsStepped(before)[k]
        invariant forall k | i <= k < |cells| :: cells[k] == before[k]
        invariant cellsChanged == (old(cellsChanged) || exists k | 0 <= k < i :: Flips(before[k]))
        invariant cellPositions == old(cellPositions)
      {
        var previousState := cells[i].alive;
        var state := NextAlive(cells[i].alive, cells[i].neighbors);
        cells := cells[i := cells[i].(alive := state)];
        if state != previousState {
          cellsChanged := true;
        }
      }
      FlipsIffStatesChange(before);
      if !cellsChanged {
        PositionIndexCongruent(before, cells);
      }
    }

    /** The chain of five systems the plugin runs every tick while the simulation runs. */
    method RunTick()
      requires Coherent()
      modifies this
      ensures cells == Tick(old(cells), width, height)
      ensures !cellsChanged && cellPositions == PositionIndex(cells)
    {
      RebuildCellPositions();
      UpdateNeighborsBruteForceSystem();
      UpdateCellsSystem();
      RebuildCellPositions();
      UpdateNeighborsBruteForceSystem();
      PositionIndexCongruent(old(cells), NeighboursFromIndex(old(cells), PositionIndex(old(cells)), width, height));
    }
  }

  // ------------------------------------------------------- what a tick is

  /** The live cells of the grid: in bounds, and some cell there is alive. */
  function GridLive(cells: seq<Cell>, width: nat, height: nat): Pos -> bool
  {
    p => InGrid(p, width, height) && exists i | 0 <= i < |cells| :: cells[i].position == p && cells[i].alive
  }

  /** With distinct positions, the coherent index sees exactly the live cells of the grid. */
  lemma IndexLiveIsGridLive(cells: seq<Cell>, width: nat, height: nat, p: Pos)
    requires DistinctPositions(cells)
    ensures IndexLive(PositionIndex(cells), width, height)(p) == GridLive(cells, width, height)(p)
  {
    PositionIndexBelowAt(cells, |cells|, p);
    if p in PositionIndex(cells) {
      var i :| 0 <= i < |cells| && cells[i].position == p;
      PositionIndexOfDistinct(cells, i);
    }
  }

  /** ... so the counts read from a coherent index are the live Moore neighbours within the grid. */
  lemma CoherentCounts(cells: seq<Cell>, width: nat, height: nat, position: Pos)
    requires DistinctPositions(cells)
    ensures IndexNeighbours(PositionIndex(cells), width, height, position)
         == |LiveNeighbours(position.0, position.1, GridLive(cells, width, height))|
  {
    forall p | p in MooreNeighbours(position.0, position.1)
      ensures IndexLive(PositionIndex(cells), width, height)(p) == GridLive(cells, width, height)(p)
    {
      IndexLiveIsGridLive(cells, width, height, p);
    }
    NeighbourCountCongruent(position.0, position.1, IndexLive(PositionIndex(cells), width, height), GridLive(cells, width, height));
    NeighbourCountIsLiveNeighbours(position.0, position.1, GridLive(cells, width, height));
  }

  /** Two cell lists with the same positions and states have the same live cells. */
  lemma GridLiveCongruent(cells: seq<Cell>, cells': seq<Cell>, width: nat, height: nat, p: Pos)
    requires Positions(cells) == Positions(cells') && States(cells) == States(cells')
    ensures GridLive(cells, width, height)(p) == GridLive(cells', width, height)(p)
  {
    if GridLive(cells, width, height)(p) {
      var i :| 0 <= i < |cells| && cells[i].position == p && cells[i].alive;
      assert Positions(cells')[i] == p && States(cells')[i];
    }
    if GridLive(cells', width, height)(p) {
      var i :| 0 <= i < |cells'| && cells'[i].position == p && cells'[i].alive;
      assert Positions(cells)[i] == p && States(cells)[i];
    }
  }

  /**
   * A tick is one B3/S23 generation of the grid: each cell's new state is
   * the rule applied to its state and its number of live in-bounds Moore
   * neighbours, and afterwards every count is current.
   */
  lemma TickIsGeneration(cells: seq<Cell>, width: nat, height: nat, i: nat)
    requires DistinctPositions(cells) && i < |cells|
    ensures Tick(cells, width, height)[i].position == cells[i].position
    ensures Tick(cells, width, height)[i].alive
         == Rule(cells[i].alive, |LiveNeighbours(cells[i].position.0, cells[i].position.1, GridLive(cells, width, height))|)
    ensures var next := Tick(cells, width, height);
      next[i].neighbors == |LiveNeighbours(next[i].position.0, next[i].position.1, GridLive(next, width, height))|
  {
    var counted := NeighboursFromIndex(cells, PositionIndex(cells), width, height);
    var stepped := CellsStepped(counted);
    var next := Tick(cells, width, height);
    CoherentCounts(cells, width, height, cells[i].position);
    assert stepped[i].alive == Rule(cells[i].alive, counted[i].neighbors);
    assert Positions(stepped) == Positions(cells);
    assert DistinctPositions(stepped) by {
      forall j, k | 0 <= j < k < |stepped| ensures stepped[j].position != stepped[k].position {
        assert Positions(stepped)[j] == cells[j].position && Positions(stepped)[k] == cells[k].position;
      }
    }
    CoherentCounts(stepped, width, height, stepped[i].position);
    assert next[i].position == stepped[i].position;
    var x, y := next[i].position.0, next[i].position.1;
    assert LiveNeighbours(x, y, GridLive(stepped, width, height)) == LiveNeighbours(x, y, GridLive(next, width, height)) by {
      forall p | p in MooreNeighbours(x, y) ensures GridLive(stepped, width, height)(p) == GridLive(next, width, height)(p) {
        GridLiveCongruent(stepped, next, width, height, p);
      }
    }
  }
}

/**
 * The three engines agree on a full grid. The entity engines spawn one cell
 * entity per grid cell, entity i at column i % width and row i / width,
 * which is the dense engine's row-major order. On such a world the sparse
 * engine's unbounded neighbour search and the Bevy engine's bounded index
 * lookup both see exactly the dense engine's live cells, so a round of either
 * gives every entity the state the dense engine gives its cell.
 */
module EnginesAgree {
  import opened LifeRule
  import opened DenseGrid
  import HecsWorld
  import BevySystems

  /** The entities of the sparse engine for a dense grid, counts zero as spawned. */
  function HecsEntities(cells: seq<Cell>, width: nat, height: nat): (records: seq<HecsWorld.Record>)
    requires |cells| == width * height
    ensures |records| == |cells|
  {
    seq(|cells|, i requires 0 <= i < |cells| =>
      DivBound(i, width, height); HecsWorld.Record((i % width, i / width), cells[i] == Alive, 0))
  }

  /** The cell entities of the Bevy engine for a dense grid, counts zero as spawned. */
  function BevyEntities(cells: seq<Cell>, width: nat, height: nat): (entities: seq<BevySystems.Cell>)
    requires |cells| == width * height
    ensures |entities| == |cells|
  {
    seq(|cells|, i requires 0 <= i < |cells| =>
      DivBound(i, width, height); BevySystems.Cell((i % width, i / width), cells[i] == Alive, 0))
  }

  /** Entity i sits at the coordinates of row-major index i, inside the grid. */
  lemma EntityPosition(width: nat, height: nat, i: nat)
    requires i < width * height
    ensures width > 0 && InGrid((i % width, i / width), width, height)
    ensures Index(width, i % width, i / width) == i
  {
    DivBound(i, width, height);
    IndexOfCoordinates(width, i);
  }

  /** The sparse engine's search finds a live entity exactly where the dense grid has a live cell. */
  lemma HecsLiveIsDenseLive(cells: seq<Cell>, width: nat, height: nat, p: Pos)
    requires |cells| == width * height
    ensures HecsWorld.Live(HecsEntities(cells, width, height))(p) == Live(cells, width, height)(p)
  {
    var records := HecsEntities(cells, width, height);
    HecsWorld.LiveIffSomeAliveEntity(records, p);
    LiveAt(cells, width, height, p);
    if Live(cells, width, height)(p) {
      var i := Index(width, p.0, p.1);
      IndexCoordinates(width, p.0, p.1);
      assert HecsWorld.AliveAtPosition(records[i], p);
    }
    if HecsWorld.Live(records)(p) {
      var i :| 0 <= i < |records| && HecsWorld.AliveAtPosition(records[i], p);
      EntityPosition(width, height, i);
    }
  }

  /** The Bevy engine's live cells are the dense grid's, and its entities sit at distinct positions. */
  lemma BevyLiveIsDenseLive(cells: seq<Cell>, width: nat, height: nat, p: Pos)
    requires |cells| == width * height
    ensures BevySystems.GridLive(BevyEntities(cells, width, height), width, height)(p) == Live(cells, width, height)(p)
  {
    var entities := BevyEntities(cells, width, height);
    LiveAt(cells, width, height, p);
    if Live(cells, width, height)(p) {
      var i := Index(width, p.0, p.1);
      IndexCoordinates(width, p.0, p.1);
      assert entities[i].position == p && entities[i].alive;
    }
    if BevySystems.GridLive(entities, width, height)(p) {
      var i :| 0 <= i < |entities| && entities[i].position == p && entities[i].alive;
      EntityPosition(width, height, i);
    }
  }

  lemma BevyDistinct(cells: seq<Cell>, width: nat, height: nat)
    requires |cells| == width * height
    ensures BevySystems.DistinctPositions(BevyEntities(cells, width, height))
  {
    var entities := BevyEntities(cells, width, height);
    forall i, j | 0 <= i < j < |entities| ensures entities[i].position != entities[j].position {
      EntityPosition(width, height, i);
      EntityPosition(width, height, j);
    }
  }

  /** Two predicates that agree on the Moore neighbourhood have equally many live neighbours. */
  lemma LiveNeighboursAgree(x: int, y: int, live: Pos -> bool, live': Pos -> bool)
    requires forall p | p in MooreNeighbours(x, y) :: live(p) == live'(p)
    ensures |LiveNeighbours(x, y, live)| == NeighbourCount(x, y, live')
  {
    NeighbourCountCongruent(x, y, live, live');
    NeighbourCountIsLiveNeighbours(x, y, live);
  }

  /** The dense engine's next state of cell i, in terms of its live neighbours. */
  lemma DenseNext(cells: seq<Cell>, width: nat, height: nat, i: nat)
    requires |cells| == width * height && i < |cells|
    ensures (Step(cells, width, height)[i] == Alive)
        == Rule(cells[i] == Alive, AliveNeighbours(cells, width, height, i % width, i / width))
  {
  }

  /**
   * A round of the sparse engine on a full grid gives every entity the
   * state the dense engine's step gives its cell.
   */
  lemma HecsRoundIsDenseStep(cells: seq<Cell>, width: nat, height: nat)
    requires |cells| == width * height
    ensures forall i | 0 <= i < |cells| ::
      HecsWorld.Round(HecsEntities(cells, width, height))[i].alive == (Step(cells, width, height)[i] == Alive)
  {
    var records := HecsEntities(cells, width, height);
    forall i | 0 <= i < |cells|
      ensures HecsWorld.Round(records)[i].alive == (Step(cells, width, height)[i] == Alive)
    {
      EntityPosition(width, height, i);
      var x, y := i % width, i / width;
      HecsWorld.RoundIsGeneration(records, i);
      forall p | p in MooreNeighbours(x, y) ensures HecsWorld.Live(records)(p) == Live(cells, width, height)(p) {
        HecsLiveIsDenseLive(cells, width, height, p);
      }
      LiveNeighboursAgree(x, y, HecsWorld.Live(records), Live(cells, width, height));
      DenseNext(cells, width, height, i);
    }
  }

  /**
   * A tick of the Bevy engine on a full grid, started with a coherent index,
   * gives every entity the state the dense engine's step gives its cell.
   */
  lemma BevyTickIsDenseStep(cells: seq<Cell>, width: nat, height: nat)
    requires |cells| == width * height
    ensures forall i | 0 <= i < |cells| ::
      BevySystems.Tick(BevyEntities(cells, width, height), width, height)[i].alive == (Step(cells, width, height)[i] == Alive)
  {
    var entities := BevyEntities(cells, width, height);
    BevyDistinct(cells, width, height);
    forall i | 0 <= i < |cells|
      ensures BevySystems.Tick(entities, width, height)[i].alive == (Step(cells, width, height)[i] == Alive)
    {
      EntityPosition(width, height, i);
      var x, y := i % width, i / width;
      BevySystems.TickIsGeneration(entities, width, height, i);
      forall p | p in MooreNeighbours(x, y)
        ensures BevySystems.GridLive(entities, width, height)(p) == Live(cells, width, height)(p)
      {
        BevyLiveIsDenseLive(cells, width, height, p);
      }
      LiveNeighboursAgree(x, y, BevySystems.GridLive(entities, width, height), Live(cells, width, height));
      DenseNext(cells, width, height, i);
    }
  }

  /** After a round the sparse world is again the layout of a dense grid: the dense step's. */
  lemma HecsRoundKeepsLayout(cells: seq<Cell>, width: nat, height: nat)
    requires |cells| == width * height
    ensures HecsWorld.SameCells(HecsWorld.Round(HecsEntities(cells, width, height)),
                                HecsEntities(Step(cells, width, height), width, height))
  {
    var records := HecsEntities(cells, width, height);
    HecsRoundIsDenseStep(cells, width, height);
    forall i | 0 <= i < |cells|
      ensures HecsWorld.Round(records)[i].position == records[i].position
    {
      HecsWorld.RoundIsGeneration(records, i);
    }
  }

  /**
   * `run_simulation_n_times` on a spawned grid computes the dense engine's
   * generations: after n rounds every entity holds the state of its cell
   * after n steps.
   */
  lemma {:induction false} HecsRoundsAreGenerations(cells: seq<Cell>, width: nat, height: nat, n: nat)
    requires |cells| == width * height
    ensures HecsWorld.SameCells(HecsWorld.Rounds(HecsEntities(cells, width, height), n),
                                HecsEntities(Generations(cells, width, height, n), width, height))
  {
    if n > 0 {
      var previous := Generations(cells, width, height, n - 1);
      HecsRoundsAreGenerations(cells, width, height, n - 1);
      HecsWorld.RoundIgnoresCounts(HecsWorld.Rounds(HecsEntities(cells, width, height), n - 1),
                                   HecsEntities(previous, width, height));
      HecsRoundKeepsLayout(previous, width, height);
    }
  }
}

/**
 * The scenarios of the entity engine's tests: a batch of entities is spawned,
 * the systems are run, and the entities are read back in query order.
 *
 * A neighbour pass is read off the set of live entity positions
 * (`NeighboursUpdatedFromPositions`), which Dafny can evaluate on literal
 * sets. Each world below is passed in as a parameter equal to a literal, so
 * that only the small facts each helper states are evaluated; the split is
 * for the solver's cost only, and the scenario lemmas combine the helpers.
 */
module HecsPatterns {
  import opened LifeRule
  import opened HecsWorld

  /** An entity as spawned or read back: position, state and count. */
  function E(x: int, y: int, alive: bool, neighbors: nat): Record
  {
    Record((x, y), alive, neighbors)
  }

  // ---------------------------------------------------------------- block

  /** The entities of `spawn_block_pattern`. */
  function BlockSpawn(): seq<Record>
  {
    [E(0, 0, true, 0), E(0, 1, true, 0), E(1, 0, true, 0), E(1, 1, true, 0)]
  }

  /** The world `test_block_pattern` expects after each neighbour and cell pass. */
  function BlockExpected(): seq<Record>
  {
    [E(0, 0, true, 3), E(0, 1, true, 3), E(1, 0, true, 3), E(1, 1, true, 3)]
  }

  function BlockSet(): set<Pos> { {(0, 0), (0, 1), (1, 0), (1, 1)} }

  function BlockCounts(): seq<nat> { [3, 3, 3, 3] }

  lemma BlockPositions(records: seq<Record>)
    requires records == BlockSpawn() || records == BlockExpected()
    ensures LivePositions(records) == BlockSet()
  {
    assert LivePositions(records) == LivePositionsBelow(records, 4);
  }

  lemma BlockNeighbourCounts(records: seq<Record>)
    requires records == BlockSpawn() || records == BlockExpected()
    ensures forall i | 0 <= i < |records| ::
      MembersAround(BlockSet(), records[i].position.0, records[i].position.1) == BlockCounts()[i]
  {
  }

  /** Every block entity, whatever its count, sees the other three. */
  lemma BlockNeighbours(records: seq<Record>)
    requires records == BlockSpawn() || records == BlockExpected()
    ensures NeighboursUpdated(records) == WithCounts(records, BlockCounts())
  {
    BlockPositions(records);
    BlockNeighbourCounts(records);
    NeighboursUpdatedFromPositions(records, BlockSet(), BlockCounts());
  }

  /**
   * `test_block_pattern`: a neighbour pass and a cell pass give every entity
   * the count 3 and keep it alive, and doing both again changes nothing.
   */
  lemma BlockScenario()
    ensures CellsUpdated(NeighboursUpdated(BlockSpawn())) == BlockExpected()
    ensures CellsUpdated(NeighboursUpdated(BlockExpected())) == BlockExpected()
  {
    BlockNeighbours(BlockSpawn());
    BlockNeighbours(BlockExpected());
  }

  /** The block is a still life of the entity engine: every round leaves it as it is. */
  lemma BlockStaysForever(n: nat)
    ensures Rounds(BlockExpected(), n) == BlockExpected()
  {
    var records := BlockExpected();
    BlockScenario();
    BlockNeighbours(records);
    assert Round(records) == records;
    RoundFixpointForever(records, n);
  }

  // -------------------------------------------------------------- blinker

  /** The entities of `spawn_blinker_pattern`: a 3 x 3 square whose middle column is alive. */
  function BlinkerSpawn(): seq<Record>
  {
    [ E(0, 0, false, 0), E(1, 0, true, 0), E(2, 0, false, 0),
      E(0, 1, false, 0), E(1, 1, true, 0), E(2, 1, false, 0),
      E(0, 2, false, 0), E(1, 2, true, 0), E(2, 2, false, 0) ]
  }

  /** The vertical phase with its counts current. */
  function BlinkerVertical(): seq<Record>
  {
    [ E(0, 0, false, 2), E(1, 0, true, 1), E(2, 0, false, 2),
      E(0, 1, false, 3), E(1, 1, true, 2), E(2, 1, false, 3),
      E(0, 2, false, 2), E(1, 2, true, 1), E(2, 2, false, 2) ]
  }

  /** The horizontal phase with the counts of the vertical one: the cell pass has run, the neighbour pass not yet. */
  function HorizontalStale(): seq<Record>
  {
    [ E(0, 0, false, 2), E(1, 0, false, 1), E(2, 0, false, 2),
      E(0, 1, true, 3), E(1, 1, true, 2), E(2, 1, true, 3),
      E(0, 2, false, 2), E(1, 2, false, 1), E(2, 2, false, 2) ]
  }

  /** The world `test_blinker_pattern` expects after a neighbour, a cell and a neighbour pass. */
  function BlinkerExpected(): seq<Record>
  {
    [ E(0, 0, false, 2), E(1, 0, false, 3), E(2, 0, false, 2),
      E(0, 1, true, 1), E(1, 1, true, 2), E(2, 1, true, 1),
      E(0, 2, false, 2), E(1, 2, false, 3), E(2, 2, false, 2) ]
  }

  /** The vertical phase with the counts of the horizontal one. */
  function VerticalStale(): seq<Record>
  {
    [ E(0, 0, false, 2), E(1, 0, true, 3), E(2, 0, false, 2),
      E(0, 1, false, 1), E(1, 1, true, 2), E(2, 1, false, 1),
      E(0, 2, false, 2), E(1, 2, true, 3), E(2, 2, false, 2) ]
  }

  function VerticalSet(): set<Pos> { {(1, 0), (1, 1), (1, 2)} }
  function HorizontalSet(): set<Pos> { {(0, 1), (1, 1), (2, 1)} }
  function VerticalCounts(): seq<nat> { [2, 1, 2, 3, 2, 3, 2, 1, 2] }
  function HorizontalCounts(): seq<nat> { [2, 3, 2, 1, 2, 1, 2, 3, 2] }

  /** The entities of the blinker tests sit on the 3 x 3 square in row order. */
  predicate OnSquare(records: seq<Record>)
  {
    |records| == 9 && forall i | 0 <= i < 9 :: records[i].position == BlinkerSpawn()[i].position
  }

  lemma VerticalNeighbourCounts(records: seq<Record>)
    requires OnSquare(records)
    ensures forall i | 0 <= i < |records| ::
      MembersAround(VerticalSet(), records[i].position.0, records[i].position.1) == VerticalCounts()[i]
  {
  }

  lemma HorizontalNeighbourCounts(records: seq<Record>)
    requires OnSquare(records)
    ensures forall i | 0 <= i < |records| ::
      MembersAround(HorizontalSet(), records[i].position.0, records[i].position.1) == HorizontalCounts()[i]
  {
  }

  lemma VerticalPositions(records: seq<Record>)
    requires records == BlinkerSpawn() || records == VerticalStale()
    ensures LivePositions(records) == VerticalSet()
  {
    assert LivePositions(records) == LivePositionsBelow(records, 9);
  }

  lemma VerticalWithCounts(records: seq<Record>)
    requires records == BlinkerSpawn() || records == VerticalStale()
    ensures OnSquare(records)
    ensures WithCounts(records, VerticalCounts()) == BlinkerVertical()
  {
  }

  lemma HorizontalPositions(records: seq<Record>)
    requires records == HorizontalStale()
    ensures LivePositions(records) == HorizontalSet()
  {
    assert LivePositions(records) == LivePositionsBelow(records, 9);
  }

  lemma HorizontalWithCounts(records: seq<Record>)
    requires records == HorizontalStale()
    ensures OnSquare(records)
    ensures WithCounts(records, HorizontalCounts()) == BlinkerExpected()
  {
  }

  lemma VerticalNeighbours(records: seq<Record>)
    requires records == BlinkerSpawn() || records == VerticalStale()
    ensures NeighboursUpdated(records) == BlinkerVertical()
  {
    VerticalPositions(records);
    VerticalWithCounts(records);
    VerticalNeighbourCounts(records);
    NeighboursUpdatedFromPositions(records, VerticalSet(), VerticalCounts());
  }

  lemma HorizontalNeighbours(records: seq<Record>)
    requires records == HorizontalStale()
    ensures NeighboursUpdated(records) == BlinkerExpected()
  {
    HorizontalPositions(records);
    HorizontalWithCounts(records);
    HorizontalNeighbourCounts(records);
    NeighboursUpdatedFromPositions(records, HorizontalSet(), HorizontalCounts());
  }

  /** The two cell passes: the vertical line turns horizontal and back. */
  lemma BlinkerCells()
    ensures CellsUpdated(BlinkerVertical()) == HorizontalStale()
    ensures CellsUpdated(BlinkerExpected()) == VerticalStale()
  {
  }

  /**
   * `test_blinker_pattern`: a neighbour, a cell and a neighbour pass turn the
   * vertical blinker into the expected horizontal one, dead entities
   * included, and the next round turns it back.
   */
  lemma BlinkerScenario()
    ensures Round(BlinkerSpawn()) == BlinkerExpected()
    ensures Round(BlinkerExpected()) == BlinkerVertical()
  {
    VerticalNeighbours(BlinkerSpawn());
    BlinkerCells();
    HorizontalNeighbours(HorizontalStale());
    NeighboursUpdatedIdempotent(HorizontalStale());
    VerticalNeighbours(VerticalStale());
  }

  /** From the vertical phase with its counts current, a round gives the expected horizontal phase. */
  lemma VerticalRound()
    ensures Round(BlinkerVertical()) == BlinkerExpected()
  {
    BlinkerScenario();
    VerticalNeighbours(BlinkerSpawn());
    NeighboursUpdatedIdempotent(BlinkerSpawn());
  }

  /** The blinker has period 2 in rounds. */
  lemma {:induction false} BlinkerHasPeriod2(n: nat)
    ensures Rounds(BlinkerExpected(), 2 * n) == BlinkerExpected()
    ensures Rounds(BlinkerExpected(), 2 * n + 1) == BlinkerVertical()
  {
    BlinkerScenario();
    VerticalRound();
    if n > 0 {
      BlinkerHasPeriod2(n - 1);
      assert 2 * n == 2 * (n - 1) + 1 + 1;
    }
  }

  // ----------------------------------------------------------------- toad

  /** The entities of `spawn_toad_pattern`: two overlapping columns of three. */
  function ToadSpawn(): seq<Record>
  {
    [ E(0, 0, true, 0), E(0, 1, true, 0), E(0, 2, true, 0),
      E(1, 1, true, 0), E(1, 2, true, 0), E(1, 3, true, 0) ]
  }

  function ToadSet(): set<Pos> { {(0, 0), (0, 1), (0, 2), (1, 1), (1, 2), (1, 3)} }

  /** The counts `test_toad_pattern` expects after one neighbour pass. */
  function ToadTestCounts(): seq<nat> { [1, 3, 2, 2, 3, 1] }

  /** The number of live neighbours each toad entity actually has. */
  function ToadCounts(): seq<nat> { [2, 4, 4, 4, 4, 2] }

  lemma ToadNeighbourCounts(records: seq<Record>)
    requires records == ToadSpawn()
    ensures forall i | 0 <= i < |records| ::
      MembersAround(ToadSet(), records[i].position.0, records[i].position.1) == ToadCounts()[i]
  {
  }

  /**
   * `test_toad_pattern`, as it should read: one neighbour pass gives the
   * end entities of the two columns 2 live neighbours and the four middle
   * ones 4.
   */
  lemma ToadScenario()
    ensures NeighboursUpdated(ToadSpawn()) == WithCounts(ToadSpawn(), ToadCounts())
  {
    var records := ToadSpawn();
    assert LivePositions(records) == LivePositionsBelow(records, 6) == ToadSet();
    ToadNeighbourCounts(records);
    NeighboursUpdatedFromPositions(records, ToadSet(), ToadCounts());
  }

  /**
   * `test_toad_pattern` as written: the counts it expects after one
   * neighbour pass are not the ones the pass writes; already the first
   * entity, at (0, 0), has the two live neighbours (0, 1) and (1, 1), not 1.
   */
  lemma ToadTestExpectationFails()
    ensures NeighboursUpdated(ToadSpawn()) != WithCounts(ToadSpawn(), ToadTestCounts())
  {
    ToadScenario();
    assert WithCounts(ToadSpawn(), ToadCounts())[0].neighbors == 2;
    assert WithCounts(ToadSpawn(), ToadTestCounts())[0].neighbors == 1;
  }

  /**
   * The cell pass written at the end of the toad test. As written the test
   * never reaches it, because the count check before it fails (see
   * `ToadTestExpectationFails`); this is the pass on the correct counts.
   * Only entities are updated, so the births of the toad's next phase, all
   * at positions where no entity sits, do not happen; the four middle
   * entities die of overcrowding and only the two ends survive.
   */
  lemma ToadCells()
    ensures CellsUpdated(WithCounts(ToadSpawn(), ToadCounts())) ==
      [ E(0, 0, true, 2), E(0, 1, false, 4), E(0, 2, false, 4),
        E(1, 1, false, 4), E(1, 2, false, 4), E(1, 3, true, 2) ]
  {
  }
}

/**
 * The scenarios of the dense engine's tests: a pattern is placed on a grid of
 * dead cells with `set_cell_by_position`, one generation is run, and the
 * resulting grid is compared with the expected one.
 *
 * A grid is described here by the set of its live positions. Each scenario
 * is decided by `StepsTo`, a recursive check over the grid's positions that
 * Dafny can evaluate on literal sets, and `StepsToSound` lifts the check to
 * a statement about `Step`.
 */
module DensePatterns {
  import opened LifeRule
  import opened DenseGrid

  /** The width x height grid whose live cells are the in-grid members of `live`. */
  function FromLive(width: nat, height: nat, live: set<Pos>): (cells: seq<Cell>)
    ensures |cells| == width * height
  {
    seq(width * height, k requires 0 <= k < width * height =>
      if (k % width, k / width) in live then Alive else Dead)
  }

  /** Reading (x, y) back from `FromLive` tells whether (x, y) is in the set. */
  lemma FromLiveAt(width: nat, height: nat, live: set<Pos>, x: nat, y: nat)
    requires x < width && y < height
    ensures Index(width, x, y) < width * height
    ensures (FromLive(width, height, live)[Index(width, x, y)] == Alive) == ((x, y) in live)
  {
    IndexInGrid(width, height, x, y);
    IndexCoordinates(width, x, y);
  }

  lemma FromLiveAliveAt(width: nat, height: nat, live: set<Pos>, p: Pos)
    ensures AliveAt(FromLive(width, height, live), width, height, p) == (InGrid(p, width, height) && p in live)
  {
    if InGrid(p, width, height) {
      FromLiveAt(width, height, live, p.0, p.1);
    }
  }

  /** The vector `initialize_cells` returns is the grid with no live cell. */
  lemma InitialIsFromNoLive(cells: seq<Cell>, width: nat, height: nat)
    requires |cells| == width * height && AllDead(cells)
    ensures cells == FromLive(width, height, {})
  {
  }

  /** The setup of the tests: `set_cell_by_position(.., Alive)` at each listed position in turn. */
  function Place(cells: seq<Cell>, width: nat, height: nat, positions: seq<Pos>): (placed: seq<Cell>)
    requires |cells| == width * height
    requires forall i | 0 <= i < |positions| :: InGrid(positions[i], width, height)
    ensures |placed| == |cells|
    decreases |positions|
  {
    if positions == [] then cells
    else
      var p := positions[0];
      assert InGrid(p, width, height);
      IndexInGrid(width, height, p.0, p.1);
      Place(cells[Index(width, p.0, p.1) := Alive], width, height, positions[1..])
  }

  /** Setting (x, y) alive in a grid described by a live set adds (x, y) to the set. */
  lemma SetAliveFromLive(width: nat, height: nat, live: set<Pos>, x: nat, y: nat)
    requires x < width && y < height
    ensures Index(width, x, y) < width * height
    ensures FromLive(width, height, live)[Index(width, x, y) := Alive] == FromLive(width, height, live + {(x, y)})
  {
    IndexInGrid(width, height, x, y);
    IndexCoordinates(width, x, y);
    var before, after := FromLive(width, height, live), FromLive(width, height, live + {(x, y)});
    forall k | 0 <= k < width * height ensures before[Index(width, x, y) := Alive][k] == after[k] {
      IndexOfCoordinates(width, k);
    }
  }

  /** Placing the listed positions on a grid adds exactly those positions to its live set. */
  lemma {:induction false} PlaceIsFromLive(width: nat, height: nat, live: set<Pos>, positions: seq<Pos>)
    requires forall i | 0 <= i < |positions| :: InGrid(positions[i], width, height)
    ensures Place(FromLive(width, height, live), width, height, positions)
         == FromLive(width, height, live + set i | 0 <= i < |positions| :: positions[i])
    decreases |positions|
  {
    if positions != [] {
      var p := positions[0];
      SetAliveFromLive(width, height, live, p.0, p.1);
      PlaceIsFromLive(width, height, live + {p}, positions[1..]);
      assert live + {p} + (set i | 0 <= i < |positions[1..]| :: positions[1..][i])
          == live + set i | 0 <= i < |positions| :: positions[i];
    }
  }

  /** Every member of `live` lies in the grid. */
  predicate WithinGrid(live: set<Pos>, width: nat, height: nat)
  {
    forall p | p in live :: InGrid(p, width, height)
  }

  /**
   * Whether B3/S23 turns `live` into `next` at every position of row y from
   * column x onwards. Dafny can evaluate it on literal sets.
   */
  predicate RowStepsTo(width: nat, live: set<Pos>, next: set<Pos>, x: nat, y: int)
    decreases width - x
  {
    x < width ==>
      && Rule((x, y) in live, MembersAround(live, x, y)) == ((x, y) in next)
      && RowStepsTo(width, live, next, x + 1, y)
  }

  /** Whether B3/S23 turns `live` into `next` at every position of the grid. */
  predicate StepsTo(width: nat, height: nat, live: set<Pos>, next: set<Pos>)
  {
    forall y | 0 <= y < height :: RowStepsTo(width, live, next, 0, y)
  }

  lemma {:induction false} RowStepsToAt(width: nat, live: set<Pos>, next: set<Pos>, x0: nat, x: nat, y: int)
    requires RowStepsTo(width, live, next, x0, y)
    requires x0 <= x < width
    ensures Rule((x, y) in live, MembersAround(live, x, y)) == ((x, y) in next)
    decreases x - x0
  {
    if x0 < x {
      RowStepsToAt(width, live, next, x0 + 1, x, y);
    }
  }

  /** Around (x, y), the count in the grid built from `live` is the count of members of `live`. */
  lemma AliveNeighboursFromLive(width: nat, height: nat, live: set<Pos>, x: int, y: int)
    requires WithinGrid(live, width, height)
    ensures AliveNeighbours(FromLive(width, height, live), width, height, x, y) == MembersAround(live, x, y)
  {
    var cells := FromLive(width, height, live);
    NeighbourCountUnrolled(x, y, Live(cells, width, height));
    FromLiveAliveAt(width, height, live, (x - 1, y - 1));
    FromLiveAliveAt(width, height, live, (x - 1, y));
    FromLiveAliveAt(width, height, live, (x - 1, y + 1));
    FromLiveAliveAt(width, height, live, (x, y - 1));
    FromLiveAliveAt(width, height, live, (x, y + 1));
    FromLiveAliveAt(width, height, live, (x + 1, y - 1));
    FromLiveAliveAt(width, height, live, (x + 1, y));
    FromLiveAliveAt(width, height, live, (x + 1, y + 1));
  }

  /** A passed check decides the cell at row-major index k of the next generation. */
  lemma StepsToCell(width: nat, height: nat, live: set<Pos>, next: set<Pos>, k: nat)
    requires WithinGrid(live, width, height) && StepsTo(width, height, live, next)
    requires k < width * height
    ensures Step(FromLive(width, height, live), width, height)[k] == FromLive(width, height, next)[k]
  {
    DivBound(k, width, height);
    var x, y := k % width, k / width;
    AliveNeighboursFromLive(width, height, live, x, y);
    RowStepsToAt(width, live, next, 0, x, y);
  }

  /** A passed check means one generation turns the grid of `live` into the grid of `next`. */
  lemma StepsToSound(width: nat, height: nat, live: set<Pos>, next: set<Pos>)
    requires WithinGrid(live, width, height) && StepsTo(width, height, live, next)
    ensures Step(FromLive(width, height, live), width, height) == FromLive(width, height, next)
  {
    forall k | 0 <= k < width * height
      ensures Step(FromLive(width, height, live), width, height)[k] == FromLive(width, height, next)[k]
    {
      StepsToCell(width, height, live, next, k);
    }
  }

  /** The block of `test_block_pattern`. */
  function Block(): set<Pos> { {(1, 1), (1, 2), (2, 1), (2, 2)} }

  /** The beehive of `test_beehive_pattern`. */
  function Beehive(): set<Pos> { {(1, 2), (2, 1), (2, 3), (3, 1), (3, 3), (4, 2)} }

  /** The blinker of `test_blinker_pattern`, before and after one generation. */
  function VerticalBlinker(): set<Pos> { {(2, 1), (2, 2), (2, 3)} }
  function HorizontalBlinker(): set<Pos> { {(1, 2), (2, 2), (3, 2)} }

  /** The toad of `test_toad_pattern`, before and after one generation. */
  function ToadPhase1(): set<Pos> { {(1, 0), (1, 1), (2, 1), (1, 2), (2, 2), (2, 3)} }
  function ToadPhase2(): set<Pos> { {(1, 0), (2, 0), (0, 1), (3, 2), (1, 3), (2, 3)} }

  // The checks below evaluate one row each, so that no single proof has to
  // unfold a whole grid: each row lemma fixes its row to a literal only to
  // keep the solver's work per proof small, and the scenario lemmas below
  // combine the rows of a grid.

  lemma BlockRow0(y: nat)
    requires y == 0
    ensures RowStepsTo(4, Block(), Block(), 0, y)
  {
  }

  lemma BlockRow1(y: nat)
    requires y == 1
    ensures RowStepsTo(4, Block(), Block(), 0, y)
  {
  }

  lemma BlockRow2(y: nat)
    requires y == 2
    ensures RowStepsTo(4, Block(), Block(), 0, y)
  {
  }

  lemma BlockRow3(y: nat)
    requires y == 3
    ensures RowStepsTo(4, Block(), Block(), 0, y)
  {
  }

  /**
   * `test_block_pattern`: placing the block on a 4 x 4 grid of dead cells
   * gives the expected grid, and one generation leaves it unchanged.
   */
  lemma BlockScenario(cells: seq<Cell>)
    requires |cells| == 4 * 4 && AllDead(cells)
    ensures Place(cells, 4, 4, [(1, 1), (1, 2), (2, 1), (2, 2)]) == FromLive(4, 4, Block())
    ensures Step(FromLive(4, 4, Block()), 4, 4) == FromLive(4, 4, Block())
  {
    var positions := [(1, 1), (1, 2), (2, 1), (2, 2)];
    InitialIsFromNoLive(cells, 4, 4);
    PlaceIsFromLive(4, 4, {}, positions);
    assert {} + (set i | 0 <= i < |positions| :: positions[i]) == Block() by {
      assert positions[0] == (1, 1) && positions[1] == (1, 2) && positions[2] == (2, 1) && positions[3] == (2, 2);
    }
    forall y | 0 <= y < 4 ensures RowStepsTo(4, Block(), Block(), 0, y) {
      if y == 0 { BlockRow0(y); }
      else if y == 1 { BlockRow1(y); }
      else if y == 2 { BlockRow2(y); }
      else { BlockRow3(y); }
    }
    StepsToSound(4, 4, Block(), Block());
  }

  /** The block is unchanged after any number of generations. */
  lemma BlockStaysForever(n: nat)
    ensures Generations(FromLive(4, 4, Block()), 4, 4, n) == FromLive(4, 4, Block())
  {
    BlockScenario(FromLive(4, 4, {}));
    StillLifeForever(FromLive(4, 4, Block()), 4, 4, n);
  }

  lemma BeehiveRow0(y: nat)
    requires y == 0
    ensures RowStepsTo(6, Beehive(), Beehive(), 0, y)
  {
  }

  lemma BeehiveRow1(y: nat)
    requires y == 1
    ensures RowStepsTo(6, Beehive(), Beehive(), 0, y)
  {
  }

  lemma BeehiveRow2(y: nat)
    requires y == 2
    ensures RowStepsTo(6, Beehive(), Beehive(), 0, y)
  {
  }

  lemma BeehiveRow3(y: nat)
    requires y == 3
    ensures RowStepsTo(6, Beehive(), Beehive(), 0, y)
  {
  }

  lemma BeehiveRow4(y: nat)
    requires y == 4
    ensures RowStepsTo(6, Beehive(), Beehive(), 0, y)
  {
  }

  /**
   * `test_beehive_pattern`: placing the beehive on a 6 x 5 grid of dead
   * cells gives the expected grid, and one generation leaves it unchanged.
   */
  lemma BeehiveScenario(cells: seq<Cell>)
    requires |cells| == 6 * 5 && AllDead(cells)
    ensures Place(cells, 6, 5, [(1, 2), (2, 1), (2, 3), (3, 1), (3, 3), (4, 2)]) == FromLive(6, 5, Beehive())
    ensures Step(FromLive(6, 5, Beehive()), 6, 5) == FromLive(6, 5, Beehive())
  {
    var positions := [(1, 2), (2, 1), (2, 3), (3, 1), (3, 3), (4, 2)];
    InitialIsFromNoLive(cells, 6, 5);
    PlaceIsFromLive(6, 5, {}, positions);
    assert {} + (set i | 0 <= i < |positions| :: positions[i]) == Beehive() by {
      assert positions[0] == (1, 2) && positions[1] == (2, 1) && positions[2] == (2, 3);
      assert positions[3] == (3, 1) && positions[4] == (3, 3) && positions[5] == (4, 2);
    }
    forall y | 0 <= y < 5 ensures RowStepsTo(6, Beehive(), Beehive(), 0, y) {
      if y == 0 { BeehiveRow0(y); }
      else if y == 1 { BeehiveRow1(y); }
      else if y == 2 { BeehiveRow2(y); }
      else if y == 3 { BeehiveRow3(y); }
      else { BeehiveRow4(y); }
    }
    StepsToSound(6, 5, Beehive(), Beehive());
  }

  lemma VerticalBlinkerRow0(y: nat)
    requires y == 0
    ensures RowStepsTo(5, VerticalBlinker(), HorizontalBlinker(), 0, y)
  {
  }

  lemma VerticalBlinkerRow1(y: nat)
    requires y == 1
    ensures RowStepsTo(5, VerticalBlinker(), HorizontalBlinker(), 0, y)
  {
  }

  lemma VerticalBlinkerRow2(y: nat)
    requires y == 2
    ensures RowStepsTo(5, VerticalBlinker(), HorizontalBlinker(), 0, y)
  {
  }

  lemma VerticalBlinkerRow3(y: nat)
    requires y == 3
    ensures RowStepsTo(5, VerticalBlinker(), HorizontalBlinker(), 0, y)
  {
  }

  lemma VerticalBlinkerRow4(y: nat)
    requires y == 4
    ensures RowStepsTo(5, VerticalBlinker(), HorizontalBlinker(), 0, y)
  {
  }

  lemma HorizontalBlinkerRow0(y: nat)
    requires y == 0
    ensures RowStepsTo(5, HorizontalBlinker(), VerticalBlinker(), 0, y)
  {
  }

  lemma HorizontalBlinkerRow1(y: nat)
    requires y == 1
    ensures RowStepsTo(5, HorizontalBlinker(), VerticalBlinker(), 0, y)
  {
  }

  lemma HorizontalBlinkerRow2(y: nat)
    requires y == 2
    ensures RowStepsTo(5, HorizontalBlinker(), VerticalBlinker(), 0, y)
  {
  }

  lemma HorizontalBlinkerRow3(y: nat)
    requires y == 3
    ensures RowStepsTo(5, HorizontalBlinker(), VerticalBlinker(), 0, y)
  {
  }

  lemma HorizontalBlinkerRow4(y: nat)
    requires y == 4
    ensures RowStepsTo(5, HorizontalBlinker(), VerticalBlinker(), 0, y)
  {
  }

  /**
   * `test_blinker_pattern`: placing the vertical blinker on a 5 x 5 grid of
   * dead cells gives the expected grid, and one generation turns it
   * horizontal. A further generation turns it back.
   */
  lemma BlinkerScenario(cells: seq<Cell>)
    requires |cells| == 5 * 5 && AllDead(cells)
    ensures Place(cells, 5, 5, [(2, 1), (2, 2), (2, 3)]) == FromLive(5, 5, VerticalBlinker())
    ensures Step(FromLive(5, 5, VerticalBlinker()), 5, 5) == FromLive(5, 5, HorizontalBlinker())
    ensures Step(FromLive(5, 5, HorizontalBlinker()), 5, 5) == FromLive(5, 5, VerticalBlinker())
  {
    var positions := [(2, 1), (2, 2), (2, 3)];
    InitialIsFromNoLive(cells, 5, 5);
    PlaceIsFromLive(5, 5, {}, positions);
    assert {} + (set i | 0 <= i < |positions| :: positions[i]) == VerticalBlinker() by {
      assert positions[0] == (2, 1) && positions[1] == (2, 2) && positions[2] == (2, 3);
    }
    forall y | 0 <= y < 5 ensures RowStepsTo(5, VerticalBlinker(), HorizontalBlinker(), 0, y) {
      if y == 0 { VerticalBlinkerRow0(y); }
      else if y == 1 { VerticalBlinkerRow1(y); }
      else if y == 2 { VerticalBlinkerRow2(y); }
      else if y == 3 { VerticalBlinkerRow3(y); }
      else { VerticalBlinkerRow4(y); }
    }
    StepsToSound(5, 5, VerticalBlinker(), HorizontalBlinker());
    forall y | 0 <= y < 5 ensures RowStepsTo(5, HorizontalBlinker(), VerticalBlinker(), 0, y) {
      if y == 0 { HorizontalBlinkerRow0(y); }
      else if y == 1 { HorizontalBlinkerRow1(y); }
      else if y == 2 { HorizontalBlinkerRow2(y); }
      else if y == 3 { HorizontalBlinkerRow3(y); }
      else { HorizontalBlinkerRow4(y); }
    }
    StepsToSound(5, 5, HorizontalBlinker(), VerticalBlinker());
  }

  /** The blinker has period 2: vertical after every even number of generations, horizontal after every odd one. */
  lemma BlinkerHasPeriod2(n: nat)
    ensures Generations(FromLive(5, 5, VerticalBlinker()), 5, 5, 2 * n) == FromLive(5, 5, VerticalBlinker())
    ensures Generations(FromLive(5, 5, VerticalBlinker()), 5, 5, 2 * n + 1) == FromLive(5, 5, HorizontalBlinker())
  {
    BlinkerScenario(FromLive(5, 5, {}));
    Period2Forever(FromLive(5, 5, VerticalBlinker()), 5, 5, n);
  }

  lemma ToadRow0(y: nat)
    requires y == 0
    ensures RowStepsTo(4, ToadPhase1(), ToadPhase2(), 0, y)
  {
  }

  lemma ToadRow1(y: nat)
    requires y == 1
    ensures RowStepsTo(4, ToadPhase1(), ToadPhase2(), 0, y)
  {
  }

  lemma ToadRow2(y: nat)
    requires y == 2
    ensures RowStepsTo(4, ToadPhase1(), ToadPhase2(), 0, y)
  {
  }

  lemma ToadRow3(y: nat)
    requires y == 3
    ensures RowStepsTo(4, ToadPhase1(), ToadPhase2(), 0, y)
  {
  }

  /**
   * `test_toad_pattern`: placing the toad on a 4 x 4 grid of dead cells
   * gives the expected grid, and one generation moves it to its second
   * phase.
   */
  lemma ToadScenario(cells: seq<Cell>)
    requires |cells| == 4 * 4 && AllDead(cells)
    ensures Place(cells, 4, 4, [(1, 0), (1, 1), (2, 1), (1, 2), (2, 2), (2, 3)]) == FromLive(4, 4, ToadPhase1())
    ensures Step(FromLive(4, 4, ToadPhase1()), 4, 4) == FromLive(4, 4, ToadPhase2())
  {
    var positions := [(1, 0), (1, 1), (2, 1), (1, 2), (2, 2), (2, 3)];
    InitialIsFromNoLive(cells, 4, 4);
    PlaceIsFromLive(4, 4, {}, positions);
    assert {} + (set i | 0 <= i < |positions| :: positions[i]) == ToadPhase1() by {
      assert positions[0] == (1, 0) && positions[1] == (1, 1) && positions[2] == (2, 1);
      assert positions[3] == (1, 2) && positions[4] == (2, 2) && positions[5] == (2, 3);
    }
    forall y | 0 <= y < 4 ensures RowStepsTo(4, ToadPhase1(), ToadPhase2(), 0, y) {
      if y == 0 { ToadRow0(y); }
      else if y == 1 { ToadRow1(y); }
      else if y == 2 { ToadRow2(y); }
      else { ToadRow3(y); }
    }
    StepsToSound(4, 4, ToadPhase1(), ToadPhase2());
  }
}

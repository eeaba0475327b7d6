/**
 * The sparse entity engine: the world is a list of entities, each with a
 * position, a state (alive or dead) and a neighbour count. There is no grid:
 * a neighbour exists only where some entity sits, and positions may be
 * negative.
 *
 * The entity store is a sequence of records in query order; an entity is
 * its index in that sequence. Both systems work in two phases: a query
 * collects one value per entity from the current world, then a loop writes
 * the collected values back one entity at a time.
 */
module HecsWorld {
  import opened LifeRule

  datatype Option<T> = None | Some(value: T)

  /** The `Neighbors` component is a `u8`. */
  const U8_LIMIT: nat := 0x100

  /** The three components of a cell entity: `Position`, `State` and `Neighbors`. */
  datatype Record = Record(position: Pos, alive: bool, neighbors: nat)

  /** The predicate of the neighbour search: the entity sits at p and is alive. */
  predicate AliveAtPosition(r: Record, p: Pos)
  {
    r.position == p && r.alive
  }

  /**
   * The iterator search of the neighbour loop, started at entity `from`:
   * the first entity at or after `from` that sits at p and is alive.
   */
  function FindAliveFrom(records: seq<Record>, p: Pos, from: nat): (found: Option<nat>)
    requires from <= |records|
    ensures found.Some? ==>
      && from <= found.value < |records|
      && AliveAtPosition(records[found.value], p)
      && forall j | from <= j < found.value :: !AliveAtPosition(records[j], p)
    ensures found.None? ==> forall j | from <= j < |records| :: !AliveAtPosition(records[j], p)
    decreases |records| - from
  {
    if from == |records| then None
    else if AliveAtPosition(records[from], p) then Some(from)
    else FindAliveFrom(records, p, from + 1)
  }

  /** The search over the whole world. */
  function FindAlive(records: seq<Record>, p: Pos): Option<nat>
  {
    FindAliveFrom(records, p, 0)
  }

  /** What a probe sees: whether the search at p finds an entity. */
  function Live(records: seq<Record>): Pos -> bool
  {
    p => FindAlive(records, p).Some?
  }

  /** A probe succeeds exactly when some entity sits at the probed position and is alive. */
  lemma LiveIffSomeAliveEntity(records: seq<Record>, p: Pos)
    ensures Live(records)(p) <==> exists i | 0 <= i < |records| :: AliveAtPosition(records[i], p)
  {
    var found := FindAlive(records, p);
    if found.Some? {
      assert AliveAtPosition(records[found.value], p);
    }
  }

  /** The positions of the live entities among the first n. */
  function LivePositionsBelow(records: seq<Record>, n: nat): set<Pos>
    requires n <= |records|
  {
    if n == 0 then {}
    else LivePositionsBelow(records, n - 1) + (if records[n - 1].alive then {records[n - 1].position} else {})
  }

  /** The positions of the live entities. */
  function LivePositions(records: seq<Record>): set<Pos>
  {
    LivePositionsBelow(records, |records|)
  }

  lemma {:induction false} LivePositionsBelowMembers(records: seq<Record>, n: nat, p: Pos)
    requires n <= |records|
    ensures p in LivePositionsBelow(records, n) <==> exists i | 0 <= i < n :: AliveAtPosition(records[i], p)
  {
    if n > 0 {
      LivePositionsBelowMembers(records, n - 1, p);
      if AliveAtPosition(records[n - 1], p) {
        assert p in LivePositionsBelow(records, n);
      }
    }
  }

  /** A probe succeeds exactly at the positions of live entities. */
  lemma LiveIsLivePositions(records: seq<Record>, p: Pos)
    ensures Live(records)(p) == (p in LivePositions(records))
  {
    LiveIffSomeAliveEntity(records, p);
    LivePositionsBelowMembers(records, |records|, p);
  }

  /** The count the neighbour closure produces for an entity at `position`. */
  function AliveNeighbours(records: seq<Record>, position: Pos): nat
  {
    NeighbourCount(position.0, position.1, Live(records))
  }

  /** The count of an entity is the number of live entity positions around it. */
  lemma AliveNeighboursFromPositions(records: seq<Record>, position: Pos)
    ensures AliveNeighbours(records, position) == MembersAround(LivePositions(records), position.0, position.1)
  {
    forall p | p in MooreNeighbours(position.0, position.1) ensures Live(records)(p) == (p in LivePositions(records)) {
      LiveIsLivePositions(records, p);
    }
    NeighbourCountOfMembers(position.0, position.1, Live(records), LivePositions(records));
  }

  /** The world with the given counts written into the entities in order. */
  function WithCounts(records: seq<Record>, counts: seq<nat>): (updated: seq<Record>)
    requires |counts| == |records|
  {
    seq(|records|, i requires 0 <= i < |records| => records[i].(neighbors := counts[i]))
  }

  /** The neighbour pass read off the live positions: each entity gets the number of them around it. */
  lemma NeighboursUpdatedFromPositions(records: seq<Record>, live: set<Pos>, counts: seq<nat>)
    requires LivePositions(records) == live && |counts| == |records|
    requires forall i | 0 <= i < |records| :: MembersAround(live, records[i].position.0, records[i].position.1) == counts[i]
    ensures NeighboursUpdated(records) == WithCounts(records, counts)
  {
    forall i | 0 <= i < |records| ensures NeighboursUpdated(records)[i] == WithCounts(records, counts)[i] {
      AliveNeighboursFromPositions(records, records[i].position);
    }
  }

  /**
   * The closure of `update_neighbors_system` for one entity: probe the
   * eight offsets around its position (outer x, inner y, centre skipped) and
   * count the offsets at which the search finds a live entity. The list of
   * entities already counted is created afresh for every offset.
   */
  method CountAliveNeighbours(records: seq<Record>, position: Pos) returns (count: nat)
    ensures count == AliveNeighbours(records, position)
    ensures count == |LiveNeighbours(position.0, position.1, Live(records))| <= 8
  {
    ghost var live := Live(records);
    ghost var probes: nat := 0;
    count := 0;
    for x := -1 to 2
      invariant probes == (x + 1) * 3
      invariant count == CountProbes(probes, position.0, position.1, live)
    {
      for y := -1 to 2
        invariant probes == (x + 1) * 3 + (y + 1)
        invariant count == CountProbes(probes, position.0, position.1, live)
      {
        ProbeStep(probes, x, y, position.0, position.1, live);
        probes := probes + 1;
        if x == 0 && y == 0 {
          continue;
        }
        var neighborPosition := (position.0 + x, position.1 + y);
        var entitiesChecked: seq<nat> := [];
        var found := FindAlive(records, neighborPosition);
        if found.Some? {
          var e := found.value;
          if e !in entitiesChecked {
            count := count + 1;
            entitiesChecked := entitiesChecked + [e];
          }
        }
      }
    }
    NeighbourCountIsLiveNeighbours(position.0, position.1, live);
  }

  /**
   * The collect phase of `update_neighbors_system`: one (entity, count)
   * pair per entity, every count computed from the world as it was before
   * any write.
   */
  method CollectNeighbourCounts(records: seq<Record>) returns (counts: seq<(nat, nat)>)
    ensures |counts| == |records|
    ensures forall i | 0 <= i < |records| :: counts[i] == (i, AliveNeighbours(records, records[i].position))
  {
    counts := [];
    for i := 0 to |records|
      invariant |counts| == i
      invariant forall k | 0 <= k < i :: counts[k] == (k, AliveNeighbours(records, records[k].position))
    {
      var count := CountAliveNeighbours(records, records[i].position);
      counts := counts + [(i, count)];
    }
  }

  /** The world after `update_neighbors_system`. */
  function NeighboursUpdated(records: seq<Record>): (updated: seq<Record>)
    ensures |updated| == |records|
  {
    seq(|records|, i requires 0 <= i < |records| =>
      records[i].(neighbors := AliveNeighbours(records, records[i].position)))
  }

  /**
   * The rule of `update_cells_system`: alive with 2 neighbours, or any cell
   * with 3, lives; every other cell dies. It is B3/S23.
   */
  function NextAlive(alive: bool, neighbors: nat): (next: bool)
    ensures next == Rule(alive, neighbors)
  {
    match (alive, neighbors)
    case (true, 2) => true
    case (_, 3) => true
    case _ => false
  }

  /**
   * The collect phase of `update_cells_system`: one (entity, new state)
   * pair per entity, from the states and counts before any write.
   */
  function CollectNewStates(records: seq<Record>): (updates: seq<(nat, bool)>)
    ensures |updates| == |records|
    ensures forall i | 0 <= i < |records| ::
      updates[i].0 == i && (updates[i].1 <==> Rule(records[i].alive, records[i].neighbors))
  {
    seq(|records|, i requires 0 <= i < |records| => (i, NextAlive(records[i].alive, records[i].neighbors)))
  }

  /** The world after `update_cells_system`. */
  function CellsUpdated(records: seq<Record>): (updated: seq<Record>)
    ensures |updated| == |records|
  {
    seq(|records|, i requires 0 <= i < |records| =>
      records[i].(alive := NextAlive(records[i].alive, records[i].neighbors)))
  }

  /** One round of `run_simulation_n_times`: count, update, count again. */
  function Round(records: seq<Record>): (next: seq<Record>)
    ensures |next| == |records|
  {
    NeighboursUpdated(CellsUpdated(NeighboursUpdated(records)))
  }

  /** `n` rounds. */
  function Rounds(records: seq<Record>, n: nat): (last: seq<Record>)
    ensures |last| == |records|
  {
    if n == 0 then records else Round(Rounds(records, n - 1))
  }

  /** The hecs world: its entities in query order. */
  class World {
    var records: seq<Record>

    constructor (records: seq<Record>)
      ensures this.records == records
    {
      this.records := records;
    }

    /**
     * `update_neighbors_system`: collect every entity's count, then write
     * each count into that entity's `Neighbors`, cast to `u8`.
     */
    method UpdateNeighborsSystem()
      modifies this
      ensures records == NeighboursUpdated(old(records))
    {
      ghost var before := records;
      var neighborsCount := CollectNeighbourCounts(records);
      for k := 0 to |neighborsCount|
        invariant |records| == |before|
        invariant forall i | 0 <= i < k :: records[i] == NeighboursUpdated(before)[i]
        invariant forall i | k <= i < |records| :: records[i] == before[i]
      {
        var (entity, count) := neighborsCount[k];
        NeighbourCountIsLiveNeighbours(before[k].position.0, before[k].position.1, Live(before));
        if entity < |records| {
          records := records[entity := records[entity].(neighbors := count % U8_LIMIT)];
        }
      }
    }

    /**
     * `update_cells_system`: collect every entity's next state, then write
     * each into that entity's `State`.
     */
    method UpdateCellsSystem()
      modifies this
      ensures records == CellsUpdated(old(records))
    {
      ghost var before := records;
      var entitiesToUpdate := CollectNewStates(records);
      for k := 0 to |entitiesToUpdate|
        invariant |records| == |before|
        invariant forall i | 0 <= i < k :: records[i] == CellsUpdated(before)[i]
        invariant forall i | k <= i < |records| :: records[i] == before[i]
      {
        var (entity, newState) := entitiesToUpdate[k];
        if entity < |records| {
          records := records[entity := records[entity].(alive := newState)];
        }
      }
    }

    /** The loop of `run_simulation_n_times` (spawning and timing left out). */
    method RunSimulationNTimes(n: nat)
      modifies this
      ensures records == Rounds(old(records), n)
    {
      ghost var start := records;
      for i := 0 to n
        invariant records == Rounds(start, i)
      {
        UpdateNeighborsSystem();
        UpdateCellsSystem();
        UpdateNeighborsSystem();
      }
    }
  }

  /**
   * After the neighbour pass every entity keeps its position and state, and
   * holds the number of distinct live positions among its eight neighbours,
   * at most 8, so the `u8` cast loses nothing.
   */
  lemma NeighboursUpdatedCounts(records: seq<Record>, i: nat)
    requires i < |records|
    ensures NeighboursUpdated(records)[i].position == records[i].position
    ensures NeighboursUpdated(records)[i].alive == records[i].alive
    ensures NeighboursUpdated(records)[i].neighbors
         == |LiveNeighbours(records[i].position.0, records[i].position.1, Live(records))|
    ensures NeighboursUpdated(records)[i].neighbors <= 8 < U8_LIMIT
  {
    NeighbourCountIsLiveNeighbours(records[i].position.0, records[i].position.1, Live(records));
  }

  /** Two worlds with the same positions and states in the same order. */
  predicate SameCells(records: seq<Record>, records': seq<Record>)
  {
    && |records| == |records'|
    && forall i | 0 <= i < |records| ::
         records[i].position == records'[i].position && records[i].alive == records'[i].alive
  }

  /** The search never reads `Neighbors`: worlds with the same cells give the same search results. */
  lemma {:induction false} FindAliveIgnoresNeighbours(records: seq<Record>, records': seq<Record>, p: Pos, from: nat)
    requires SameCells(records, records') && from <= |records|
    ensures FindAliveFrom(records, p, from) == FindAliveFrom(records', p, from)
    decreases |records| - from
  {
    if from < |records| {
      FindAliveIgnoresNeighbours(records, records', p, from + 1);
    }
  }

  /** ... so the counts depend only on positions and states. */
  lemma CountsIgnoreNeighbours(records: seq<Record>, records': seq<Record>, position: Pos)
    requires SameCells(records, records')
    ensures AliveNeighbours(records, position) == AliveNeighbours(records', position)
  {
    forall p | p in MooreNeighbours(position.0, position.1) ensures Live(records)(p) == Live(records')(p) {
      FindAliveIgnoresNeighbours(records, records', p, 0);
    }
    NeighbourCountCongruent(position.0, position.1, Live(records), Live(records'));
  }

  /** The stored counts never influence a neighbour pass ... */
  lemma NeighboursUpdatedIgnoresCounts(records: seq<Record>, records': seq<Record>)
    requires SameCells(records, records')
    ensures NeighboursUpdated(records) == NeighboursUpdated(records')
  {
    forall i | 0 <= i < |records| ensures NeighboursUpdated(records)[i] == NeighboursUpdated(records')[i] {
      CountsIgnoreNeighbours(records, records', records[i].position);
    }
  }

  /** ... nor, since a round starts with one, a whole round. */
  lemma RoundIgnoresCounts(records: seq<Record>, records': seq<Record>)
    requires SameCells(records, records')
    ensures Round(records) == Round(records')
  {
    NeighboursUpdatedIgnoresCounts(records, records');
  }

  /**
   * Writing a count back cannot change a count still to be written: a
   * second neighbour pass changes nothing.
   */
  lemma NeighboursUpdatedIdempotent(records: seq<Record>)
    ensures NeighboursUpdated(NeighboursUpdated(records)) == NeighboursUpdated(records)
  {
    var once := NeighboursUpdated(records);
    assert SameCells(records, once);
    forall i | 0 <= i < |records|
      ensures NeighboursUpdated(once)[i] == once[i]
    {
      CountsIgnoreNeighbours(records, once, records[i].position);
    }
  }

  /** The cell pass changes only states, and each new state is B3/S23 of the entity's state and count. */
  lemma CellsUpdatedFollowsRule(records: seq<Record>, i: nat)
    requires i < |records|
    ensures CellsUpdated(records)[i].position == records[i].position
    ensures CellsUpdated(records)[i].neighbors == records[i].neighbors
    ensures CellsUpdated(records)[i].alive == Rule(records[i].alive, records[i].neighbors)
  {
  }

  /** Every entity's count matches the current states. */
  predicate CountsCurrent(records: seq<Record>)
  {
    forall i | 0 <= i < |records| :: records[i].neighbors == AliveNeighbours(records, records[i].position)
  }

  /** When the counts are current, a neighbour pass changes nothing. */
  lemma CountsCurrentIsFixpoint(records: seq<Record>)
    requires CountsCurrent(records)
    ensures NeighboursUpdated(records) == records
  {
  }

  /**
   * One round is one B3/S23 generation of the live positions: each entity's
   * new state is the rule applied to its old state and its count of live
   * neighbour positions, and the round leaves the counts current.
   */
  lemma RoundIsGeneration(records: seq<Record>, i: nat)
    requires i < |records|
    ensures Round(records)[i].position == records[i].position
    ensures Round(records)[i].alive
         == Rule(records[i].alive, |LiveNeighbours(records[i].position.0, records[i].position.1, Live(records))|)
    ensures CountsCurrent(Round(records))
  {
    var counted := NeighboursUpdated(records);
    var stepped := CellsUpdated(counted);
    NeighboursUpdatedCounts(records, i);
    CellsUpdatedFollowsRule(counted, i);
    NeighboursUpdatedIdempotent(stepped);
  }

  /** A world with no live entity stays without live entities for any number of rounds. */
  lemma {:induction false} NoLiveStaysNoLive(records: seq<Record>, n: nat)
    requires forall i | 0 <= i < |records| :: !records[i].alive
    ensures forall i | 0 <= i < |records| :: !Rounds(records, n)[i].alive
  {
    if n > 0 {
      var previous := Rounds(records, n - 1);
      NoLiveStaysNoLive(records, n - 1);
      forall i | 0 <= i < |previous| ensures !Round(previous)[i].alive {
        var p := previous[i].position;
        forall q ensures !Live(previous)(q) {
          LiveIffSomeAliveEntity(previous, q);
        }
        assert LiveNeighbours(p.0, p.1, Live(previous)) == {};
        RoundIsGeneration(previous, i);
      }
    }
  }

  /** A world that one round leaves unchanged stays unchanged for any number of rounds. */
  lemma {:induction false} RoundFixpointForever(records: seq<Record>, n: nat)
    requires Round(records) == records
    ensures Rounds(records, n) == records
  {
    if n > 0 {
      RoundFixpointForever(records, n - 1);
    }
  }
}

/**
 * The two-state Game-of-Life rule (B3/S23) and the Moore-neighbour count
 * that every engine of the repository shares.
 *
 * All three engines count neighbours with the same pair of nested loops: an
 * outer offset dx and an inner offset dy, each running over -1, 0, 1, and the
 * centre probe (0, 0) skipped. They differ only in how they decide whether
 * the cell at a probed position is alive, so the count here is parameterised
 * by that decision, a predicate `live` on positions.
 */
module LifeRule {

  /** A cell coordinate: x is the column, y the row. */
  type Pos = (int, int)

  /** The largest `i32`: the bounded engines compare probed coordinates with the grid size cast to `i32`. */
  const I32_MAX: nat := 0x7FFF_FFFF

  /** A grid width or height that the cast to `i32` leaves unchanged. */
  type Extent = n: nat | n <= I32_MAX

  /** Whether position p lies in [0, width) x [0, height), the bound check of the bounded engines. */
  predicate InGrid(p: Pos, width: nat, height: nat)
  {
    0 <= p.0 < width && 0 <= p.1 < height
  }

  /** B3/S23: a live cell survives with 2 or 3 live neighbours, a dead cell is born with exactly 3. */
  predicate Rule(alive: bool, n: nat)
  {
    if alive then n == 2 || n == 3 else n == 3
  }

  /** The k-th probe offset of the neighbour loops, in loop order (dx outer, dy inner). */
  function Offset(k: nat): (d: (int, int))
    requires k < 9
    ensures -1 <= d.0 <= 1 && -1 <= d.1 <= 1
    ensures d == (0, 0) <==> k == 4
    ensures k == (d.0 + 1) * 3 + (d.1 + 1)
  {
    (k / 3 - 1, k % 3 - 1)
  }

  /** The position that the k-th probe around (x, y) looks at. */
  function Probe(x: int, y: int, k: nat): Pos
    requires k < 9
  {
    (x + Offset(k).0, y + Offset(k).1)
  }

  /** The number of live positions among the first n probes around (x, y), the centre skipped. */
  function CountProbes(n: nat, x: int, y: int, live: Pos -> bool): nat
    requires n <= 9
  {
    if n == 0 then 0
    else CountProbes(n - 1, x, y, live) + (if n - 1 != 4 && live(Probe(x, y, n - 1)) then 1 else 0)
  }

  /** The value the neighbour loops leave in their counter: all nine probes done. */
  function NeighbourCount(x: int, y: int, live: Pos -> bool): nat
  {
    CountProbes(9, x, y, live)
  }

  /** The Moore neighbourhood of (x, y): the eight positions around it. */
  function MooreNeighbours(x: int, y: int): set<Pos>
  {
    { (x - 1, y - 1), (x, y - 1), (x + 1, y - 1),
      (x - 1, y),                 (x + 1, y),
      (x - 1, y + 1), (x, y + 1), (x + 1, y + 1) }
  }

  /** The live members of the Moore neighbourhood of (x, y). */
  function LiveNeighbours(x: int, y: int, live: Pos -> bool): set<Pos>
  {
    set p | p in MooreNeighbours(x, y) && live(p)
  }

  /**
   * The loops' step at offset (dx, dy): the probe they make is the k-th,
   * k = (dx + 1) * 3 + (dy + 1), and it adds one exactly when it is not the
   * centre and its position is live.
   */
  lemma ProbeStep(k: nat, dx: int, dy: int, x: int, y: int, live: Pos -> bool)
    requires -1 <= dx <= 1 && -1 <= dy <= 1 && k == (dx + 1) * 3 + (dy + 1)
    ensures k < 9
    ensures CountProbes(k + 1, x, y, live)
         == CountProbes(k, x, y, live) + Indicator(!(dx == 0 && dy == 0) && live((x + dx, y + dy)))
  {
    var d := Offset(k);
    assert d == (dx, dy);
  }

  /** The positions found live by the first n probes. */
  ghost function ProbedLive(n: nat, x: int, y: int, live: Pos -> bool): set<Pos>
    requires n <= 9
  {
    set k | 0 <= k < n && k != 4 && live(Probe(x, y, k)) :: Probe(x, y, k)
  }

  /** Two different probes look at two different positions. */
  lemma ProbeInjective(x: int, y: int, k: nat, k': nat)
    requires k < 9 && k' < 9 && k != k'
    ensures Probe(x, y, k) != Probe(x, y, k')
  {
    var d, d' := Offset(k), Offset(k');
    assert k == (d.0 + 1) * 3 + (d.1 + 1);
    assert k' == (d'.0 + 1) * 3 + (d'.1 + 1);
  }

  /** The n-th probe finds a position not found before, and adds it when it is live. */
  lemma ProbedLiveStep(n: nat, x: int, y: int, live: Pos -> bool)
    requires 0 < n <= 9
    ensures Probe(x, y, n - 1) !in ProbedLive(n - 1, x, y, live)
    ensures ProbedLive(n, x, y, live) ==
      ProbedLive(n - 1, x, y, live) + (if n - 1 != 4 && live(Probe(x, y, n - 1)) then {Probe(x, y, n - 1)} else {})
  {
    var p := Probe(x, y, n - 1);
    forall k | 0 <= k < n - 1 ensures Probe(x, y, k) != p {
      ProbeInjective(x, y, k, n - 1);
    }
  }

  /** The running counter of the loops is the number of distinct live positions probed so far. */
  lemma {:induction false} CountProbesIsProbedLive(n: nat, x: int, y: int, live: Pos -> bool)
    requires n <= 9
    ensures CountProbes(n, x, y, live) == |ProbedLive(n, x, y, live)|
  {
    if n == 0 {
      assert ProbedLive(0, x, y, live) == {};
    } else {
      CountProbesIsProbedLive(n - 1, x, y, live);
      ProbedLiveStep(n, x, y, live);
    }
  }

  /** After the nine probes the positions found live are exactly the live Moore neighbours. */
  lemma ProbedLiveIsLiveNeighbours(x: int, y: int, live: Pos -> bool)
    ensures ProbedLive(9, x, y, live) == LiveNeighbours(x, y, live)
  {
    forall p | p in LiveNeighbours(x, y, live) ensures p in ProbedLive(9, x, y, live) {
      var dx, dy := p.0 - x, p.1 - y;
      var k := (dx + 1) * 3 + (dy + 1);
      assert Offset(k) == (dx, dy);
      assert p == Probe(x, y, k);
    }
    forall p | p in ProbedLive(9, x, y, live) ensures p in LiveNeighbours(x, y, live) {
      var k :| 0 <= k < 9 && k != 4 && live(Probe(x, y, k)) && p == Probe(x, y, k);
      var d := Offset(k);
      assert p == (x + d.0, y + d.1);
    }
  }

  /**
   * The neighbour count is the number of live positions in the Moore
   * neighbourhood, so it never exceeds 8.
   */
  lemma NeighbourCountIsLiveNeighbours(x: int, y: int, live: Pos -> bool)
    ensures NeighbourCount(x, y, live) == |LiveNeighbours(x, y, live)|
    ensures NeighbourCount(x, y, live) <= 8
  {
    CountProbesIsProbedLive(9, x, y, live);
    ProbedLiveIsLiveNeighbours(x, y, live);
    CountProbesBound(9, x, y, live);
  }

  /** Each probe adds at most one, and the centre adds nothing. */
  lemma {:induction false} CountProbesBound(n: nat, x: int, y: int, live: Pos -> bool)
    requires n <= 9
    ensures CountProbes(n, x, y, live) <= if n > 4 then n - 1 else n
  {
    if n > 0 {
      CountProbesBound(n - 1, x, y, live);
    }
  }

  /** Two predicates that agree on the Moore neighbourhood give the same count. */
  lemma {:induction false} CountProbesCongruent(n: nat, x: int, y: int, live: Pos -> bool, live': Pos -> bool)
    requires n <= 9
    requires forall k | 0 <= k < n && k != 4 :: live(Probe(x, y, k)) == live'(Probe(x, y, k))
    ensures CountProbes(n, x, y, live) == CountProbes(n, x, y, live')
  {
    if n > 0 {
      CountProbesCongruent(n - 1, x, y, live, live');
    }
  }

  /**
   * The count depends only on which Moore neighbours are live: two
   * predicates that agree on the eight neighbours give the same count.
   */
  lemma NeighbourCountCongruent(x: int, y: int, live: Pos -> bool, live': Pos -> bool)
    requires forall p | p in MooreNeighbours(x, y) :: live(p) == live'(p)
    ensures NeighbourCount(x, y, live) == NeighbourCount(x, y, live')
  {
    forall k | 0 <= k < 9 && k != 4 ensures live(Probe(x, y, k)) == live'(Probe(x, y, k)) {
      var d := Offset(k);
      assert Probe(x, y, k) in MooreNeighbours(x, y) by {
        assert Probe(x, y, k) == (x + d.0, y + d.1);
      }
    }
    CountProbesCongruent(9, x, y, live, live');
  }

  /** 1 for a live probe, 0 for a dead one. */
  function Indicator(b: bool): nat
  {
    if b then 1 else 0
  }

  /**
   * The count written out: one term per Moore neighbour, in the order the
   * loops probe them.
   */
  lemma NeighbourCountUnrolled(x: int, y: int, live: Pos -> bool)
    ensures NeighbourCount(x, y, live) ==
        Indicator(live((x - 1, y - 1))) + Indicator(live((x - 1, y))) + Indicator(live((x - 1, y + 1)))
      + Indicator(live((x, y - 1)))                                  + Indicator(live((x, y + 1)))
      + Indicator(live((x + 1, y - 1))) + Indicator(live((x + 1, y))) + Indicator(live((x + 1, y + 1)))
  {
    assert CountProbes(1, x, y, live) == Indicator(live((x - 1, y - 1)));
    assert CountProbes(2, x, y, live) == CountProbes(1, x, y, live) + Indicator(live((x - 1, y)));
    assert CountProbes(3, x, y, live) == CountProbes(2, x, y, live) + Indicator(live((x - 1, y + 1)));
    assert CountProbes(4, x, y, live) == CountProbes(3, x, y, live) + Indicator(live((x, y - 1)));
    assert CountProbes(5, x, y, live) == CountProbes(4, x, y, live);
    assert CountProbes(6, x, y, live) == CountProbes(5, x, y, live) + Indicator(live((x, y + 1)));
    assert CountProbes(7, x, y, live) == CountProbes(6, x, y, live) + Indicator(live((x + 1, y - 1)));
    assert CountProbes(8, x, y, live) == CountProbes(7, x, y, live) + Indicator(live((x + 1, y)));
    assert CountProbes(9, x, y, live) == CountProbes(8, x, y, live) + Indicator(live((x + 1, y + 1)));
  }

  /** The number of members of a set of positions around (x, y), one term per Moore neighbour in probe order. */
  function MembersAround(members: set<Pos>, x: int, y: int): nat
  {
      Indicator((x - 1, y - 1) in members) + Indicator((x - 1, y) in members) + Indicator((x - 1, y + 1) in members)
    + Indicator((x, y - 1) in members)                                      + Indicator((x, y + 1) in members)
    + Indicator((x + 1, y - 1) in members) + Indicator((x + 1, y) in members) + Indicator((x + 1, y + 1) in members)
  }

  /** When `live` is membership in a set around (x, y), the count can be read off the set. */
  lemma NeighbourCountOfMembers(x: int, y: int, live: Pos -> bool, members: set<Pos>)
    requires forall p | p in MooreNeighbours(x, y) :: live(p) == (p in members)
    ensures NeighbourCount(x, y, live) == MembersAround(members, x, y)
  {
    NeighbourCountUnrolled(x, y, live);
  }
}

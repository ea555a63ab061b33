/**
  What the end of a generation adds to the pheromone matrix: every ant lays
  `intensity / distanceTraveled` on the cell of every edge of its path.
 */
module Trails {
  import opened Graph
  import opened Ants

  /** What is left of a cell's level after evaporation at `rate`. */
  function Evaporated(level: real, rate: real): (r: real)
    ensures 0.0 < level && 0.0 <= rate < 1.0 ==> 0.0 < r <= level
  {
    level * (1.0 - rate)
  }

  /** `amount`, once for every edge of `path` whose cell is (i, j). */
  function PathDeposit(path: seq<Node>, i: nat, j: nat, amount: real): real
    decreases |path|
  {
    if |path| < 2 then 0.0
    else
      PathDeposit(path[..|path| - 1], i, j, amount) +
      (if Cell(path[|path| - 2], path[|path| - 1]) == (i, j) then amount else 0.0)
  }

  /** The edge of `path` that leaves position k uses cell (i, j). */
  predicate EdgeAt(path: seq<Node>, k: int, i: nat, j: nat) {
    0 <= k < |path| - 1 && Cell(path[k], path[k + 1]) == (i, j)
  }

  /** Some edge of `path` uses cell (i, j). */
  predicate OnPath(path: seq<Node>, i: nat, j: nat) {
    exists k | 0 <= k < |path| - 1 :: EdgeAt(path, k, i, j)
  }

  /** Every ant that has moved has covered a positive distance, so the division is defined. */
  predicate Reinforceable(ants: seq<Ant>) {
    forall a | a in ants :: |a.nodesVisited| > 1 ==> a.distanceTraveled > 0
  }

  /** What one ant lays on cell (i, j). */
  function AntDeposit(a: Ant, i: nat, j: nat, intensity: real): real
    requires |a.nodesVisited| > 1 ==> a.distanceTraveled > 0
  {
    if |a.nodesVisited| < 2 then 0.0
    else PathDeposit(a.nodesVisited, i, j, intensity / a.distanceTraveled as real)
  }

  /** What all ants, in order, lay on cell (i, j). */
  function Deposit(ants: seq<Ant>, i: nat, j: nat, intensity: real): real
    requires Reinforceable(ants)
    decreases |ants|
  {
    if |ants| == 0 then 0.0
    else
      assert forall a | a in ants[..|ants| - 1] :: a in ants;
      Deposit(ants[..|ants| - 1], i, j, intensity) + AntDeposit(ants[|ants| - 1], i, j, intensity)
  }

  lemma OnPathSnoc(path: seq<Node>, i: nat, j: nat)
    requires |path| >= 2
    ensures OnPath(path, i, j) <==>
      OnPath(path[..|path| - 1], i, j) || Cell(path[|path| - 2], path[|path| - 1]) == (i, j)
  {
    var init, n := path[..|path| - 1], |path|;
    if OnPath(path, i, j) {
      var k :| 0 <= k < n - 1 && EdgeAt(path, k, i, j);
      if k < n - 2 {
        assert init[k] == path[k] && init[k + 1] == path[k + 1];
        assert EdgeAt(init, k, i, j);
      }
    }
    if OnPath(init, i, j) {
      var k :| 0 <= k < n - 2 && EdgeAt(init, k, i, j);
      assert init[k] == path[k] && init[k + 1] == path[k + 1];
      assert EdgeAt(path, k, i, j);
    }
    if Cell(path[n - 2], path[n - 1]) == (i, j) {
      assert EdgeAt(path, n - 2, i, j);
    }
  }

  /** A path lays a positive amount on a cell exactly when one of its edges uses that cell, and nothing otherwise. */
  lemma {:induction false} PathDepositSign(path: seq<Node>, i: nat, j: nat, amount: real)
    requires amount > 0.0
    ensures PathDeposit(path, i, j, amount) >= 0.0
    ensures PathDeposit(path, i, j, amount) > 0.0 <==> OnPath(path, i, j)
    decreases |path|
  {
    if |path| >= 2 {
      PathDepositSign(path[..|path| - 1], i, j, amount);
      OnPathSnoc(path, i, j);
    }
  }

  /**
    After a generation, cell (i, j) gains a non-negative amount, and a positive
    one exactly when some ant's path uses it: every other cell only evaporates.
   */
  lemma {:induction false} DepositSign(ants: seq<Ant>, i: nat, j: nat, intensity: real)
    requires Reinforceable(ants)
    requires intensity > 0.0
    ensures Deposit(ants, i, j, intensity) >= 0.0
    ensures Deposit(ants, i, j, intensity) > 0.0 <==> exists a | a in ants :: OnPath(a.nodesVisited, i, j)
    decreases |ants|
  {
    if |ants| > 0 {
      var init, a := ants[..|ants| - 1], ants[|ants| - 1];
      assert forall b | b in init :: b in ants;
      DepositSign(init, i, j, intensity);
      if |a.nodesVisited| >= 2 {
        PathDepositSign(a.nodesVisited, i, j, intensity / a.distanceTraveled as real);
      }
      assert ants == init + [a];
      if exists b | b in ants :: OnPath(b.nodesVisited, i, j) {
        var b :| b in ants && OnPath(b.nodesVisited, i, j);
        if b != a {
          assert b in init;
        }
      }
    }
  }

  /** The pheromone matrix after a generation: every cell evaporated, then every ant's trail laid on it. */
  function Reinforced(levels: seq<seq<real>>, rate: real, ants: seq<Ant>, intensity: real): (r: seq<seq<real>>)
    requires Reinforceable(ants)
    ensures |r| == |levels| && forall i :: 0 <= i < |r| ==> |r[i]| == |levels[i]|
  {
    seq(|levels|, i requires 0 <= i < |levels| =>
      seq(|levels[i]|, j requires 0 <= j < |levels[i]| => Evaporated(levels[i][j], rate) + Deposit(ants, i, j, intensity)))
  }

  /** A `rows` by `cols` matrix of ones, the level every cell starts from. */
  function Ones(rows: nat, cols: nat): seq<seq<real>> {
    seq(rows, _ => seq(cols, _ => 1.0))
  }

  /** Every cell of the matrix is positive. */
  predicate Positive(levels: seq<seq<real>>) {
    forall i, j :: 0 <= i < |levels| && 0 <= j < |levels[i]| ==> levels[i][j] > 0.0
  }

  /**
    Evaporation at a rate below one followed by the deposits keeps every cell
    positive, and a cell grows above its evaporated level exactly when some
    ant's path uses it.
   */
  lemma ReinforcedPositive(levels: seq<seq<real>>, rate: real, ants: seq<Ant>, intensity: real)
    requires Reinforceable(ants) && Positive(levels)
    requires 0.0 <= rate < 1.0 && intensity > 0.0
    ensures Positive(Reinforced(levels, rate, ants, intensity))
    ensures forall i, j :: 0 <= i < |levels| && 0 <= j < |levels[i]| ==>
      (Reinforced(levels, rate, ants, intensity)[i][j] > Evaporated(levels[i][j], rate) <==>
       exists a | a in ants :: OnPath(a.nodesVisited, i, j))
  {
    var r := Reinforced(levels, rate, ants, intensity);
    forall i, j | 0 <= i < |levels| && 0 <= j < |levels[i]|
      ensures r[i][j] > 0.0
      ensures r[i][j] > Evaporated(levels[i][j], rate) <==> exists a | a in ants :: OnPath(a.nodesVisited, i, j)
    {
      DepositSign(ants, i, j, intensity);
      assert levels[i][j] * (1.0 - rate) > 0.0;
    }
  }
}

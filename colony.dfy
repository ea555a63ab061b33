/**
  The simulation context: the car and charger lists, the distance and
  pheromone matrices, the ant population and the best path, with the tick
  that advances every ant by one move and the reset cascade that runs when a
  point is placed.
 */
module Colony {
  import opened Graph
  import opened Ants
  import opened Trails
  import opened Tracker

  /** The mouse button pressed: left places a car, right a charger, any other places nothing but still resets. */
  datatype Button = Left | Right | Other

  /** `spawns` holds one valid car index per ant to spawn, whenever ants are spawned at all. */
  predicate SpawnPicks(spawns: seq<nat>, count: nat, nCars: nat, nChargers: nat) {
    nCars > 0 && nChargers > 0 ==>
      |spawns| == count && forall k :: 0 <= k < |spawns| ==> spawns[k] < nCars
  }

  /** Over separated points, every ant that has moved has a positive distance, so its trail can be laid. */
  lemma AntsReinforceable(ants: seq<Ant>, cars: seq<Point>, chargers: seq<Point>, dist: seq<seq<int>>)
    requires Measures(dist, cars, chargers)
    requires forall i, j :: 0 <= i < |cars| && 0 <= j < |chargers| ==> cars[i] != chargers[j]
    requires PopulationValid(ants, dist, |cars|, |chargers|)
    ensures forall k :: 0 <= k < |ants| ==> WellFormedPath(ants[k].nodesVisited, |cars|, |chargers|)
    ensures Reinforceable(ants)
  {
    PopulationValidIff(ants, dist, |cars|, |chargers|);
    SeparatedDistancesPositive(dist, cars, chargers);
    forall a | a in ants
      ensures |a.nodesVisited| > 1 ==> a.distanceTraveled > 0
    {
      PathLengthPositive(a.nodesVisited, dist, |cars|, |chargers|);
    }
  }

  /** Freshly spawned ants satisfy the ant invariant. */
  lemma FreshAntsValid(ants: seq<Ant>, spawns: seq<nat>, dist: seq<seq<int>>, nCars: nat, nChargers: nat)
    requires IsTable(dist, nCars, nChargers)
    requires |ants| <= |spawns| && forall k :: 0 <= k < |spawns| ==> spawns[k] < nCars
    requires forall k :: 0 <= k < |ants| ==> ants[k] == NewAnt(spawns[k], nChargers)
    ensures forall k :: 0 <= k < |ants| ==> Movable(ants[k], dist, nCars, nChargers)
    ensures PopulationValid(ants, dist, nCars, nChargers)
  {
    forall k | 0 <= k < |ants|
      ensures AntInvariant(ants[k], dist, nCars, nChargers)
    {
      NewAntProperties(spawns[k], dist, nCars, nChargers);
    }
    PopulationValidIff(ants, dist, nCars, nChargers);
  }

  class Simulation {
    var cars: seq<Point>
    var chargers: seq<Point>
    var distances: seq<seq<int>>
    var pheromones: array2<real>
    var ants: seq<Ant>
    var shortestPath: Option<seq<Node>>
    var shortestDistance: Extended
    const numAnts: nat
    const evaporationRate: real
    const pheromoneIntensity: real

    /** Both lists are non-empty; only then are distances computed and ants spawned. */
    predicate Populated()
      reads this
    {
      |cars| > 0 && |chargers| > 0
    }

    /** No car stands on a charger. */
    predicate Separated()
      reads this
    {
      forall i, j :: 0 <= i < |cars| && 0 <= j < |chargers| ==> cars[i] != chargers[j]
    }

    /** The contents of the pheromone matrix, row by row. */
    ghost function Levels(): seq<seq<real>>
      reads this`pheromones, pheromones
    {
      var p := pheromones;
      seq(p.Length0, i requires 0 <= i < p.Length0 reads p =>
        seq(p.Length1, j requires 0 <= j < p.Length1 reads p => p[i, j]))
    }

    ghost predicate Valid()
      reads this, pheromones
    {
      0.0 <= evaporationRate < 1.0 && pheromoneIntensity > 0.0 &&
      pheromones.Length0 == |cars| && pheromones.Length1 == |chargers| &&
      (forall i, j :: 0 <= i < pheromones.Length0 && 0 <= j < pheromones.Length1 ==> pheromones[i, j] > 0.0) &&
      (Populated() ==> Measures(distances, cars, chargers) && |ants| == numAnts) &&
      (!Populated() ==> ants == []) &&
      (forall k :: 0 <= k < |ants| ==> Movable(ants[k], distances, |cars|, |chargers|)) &&
      PopulationValid(ants, distances, |cars|, |chargers|) &&
      (shortestPath.None? <==> shortestDistance.Infinity?)
    }

    constructor (numAnts: nat, evaporationRate: real, pheromoneIntensity: real)
      requires 0.0 <= evaporationRate < 1.0 && pheromoneIntensity > 0.0
      ensures this.numAnts == numAnts && this.evaporationRate == evaporationRate
      ensures this.pheromoneIntensity == pheromoneIntensity
      ensures cars == [] && chargers == [] && ants == []
      ensures shortestPath == None && shortestDistance == Infinity
      ensures Valid() && fresh(pheromones)
    {
      this.numAnts := numAnts;
      this.evaporationRate := evaporationRate;
      this.pheromoneIntensity := pheromoneIntensity;
      cars, chargers := [], [];
      distances := [];
      pheromones := new real[0, 0];
      ants := [];
      shortestPath, shortestDistance := None, Infinity;
    }

    /** A fresh generation: one new ant per spawn index, or none while either list is empty. */
    method SpawnAnts(spawns: seq<nat>)
      requires SpawnPicks(spawns, numAnts, |cars|, |chargers|)
      modifies this`ants
      ensures Populated() ==>
        |ants| == numAnts && forall k :: 0 <= k < numAnts ==> ants[k] == NewAnt(spawns[k], |chargers|)
      ensures !Populated() ==> ants == []
    {
      ants := [];
      if |chargers| > 0 && |cars| > 0 {
        var k := 0;
        while k < numAnts
          invariant 0 <= k <= numAnts
          invariant |ants| == k
          invariant forall i :: 0 <= i < k ==> ants[i] == NewAnt(spawns[i], |chargers|)
        {
          ants := ants + [NewAnt(spawns[k], |chargers|)];
          k := k + 1;
        }
      }
    }

    method ResetShortestPath()
      modifies this`shortestPath, this`shortestDistance
      ensures shortestPath == None && shortestDistance == Infinity
    {
      shortestPath := None;
      shortestDistance := Infinity;
    }

    /** Folds the current ants, in order, into the best path. */
    method SaveShortestPath()
      modifies this`shortestPath, this`shortestDistance
      ensures (shortestPath, shortestDistance) == Tracked(ants, old(shortestPath), old(shortestDistance))
    {
      var k := 0;
      while k < |ants|
        invariant 0 <= k <= |ants|
        invariant (shortestPath, shortestDistance) == Tracked(ants[..k], old(shortestPath), old(shortestDistance))
      {
        if Below(ants[k].distanceTraveled, shortestDistance) {
          shortestPath := Some(ants[k].nodesVisited);
          shortestDistance := Finite(ants[k].distanceTraveled);
        }
        assert ants[..k + 1][..k] == ants[..k];
        k := k + 1;
      }
      assert ants[..|ants|] == ants;
    }

    /** Recomputes the distance table, but only when both lists are non-empty. */
    method CalculateDistances()
      modifies this`distances
      ensures distances == if Populated() then DistanceTable(cars, chargers) else old(distances)
    {
      if |chargers| > 0 && |cars| > 0 {
        distances := DistanceTable(cars, chargers);
      }
    }

    /** A new cars-by-chargers matrix of ones. */
    method InitializePheromones()
      modifies this`pheromones
      ensures fresh(pheromones)
      ensures pheromones.Length0 == |cars| && pheromones.Length1 == |chargers|
      ensures forall i, j :: 0 <= i < |cars| && 0 <= j < |chargers| ==> pheromones[i, j] == 1.0
      ensures Levels() == Ones(|cars|, |chargers|)
    {
      pheromones := new real[|cars|, |chargers|]((i, j) => 1.0);
      forall i | 0 <= i < |cars|
        ensures Levels()[i] == Ones(|cars|, |chargers|)[i]
      {
        assert forall j :: 0 <= j < |chargers| ==> Levels()[i][j] == 1.0;
      }
    }

    /** Multiplies every cell by one minus the evaporation rate. */
    method Evaporate()
      modifies pheromones
      ensures forall i, j :: 0 <= i < pheromones.Length0 && 0 <= j < pheromones.Length1 ==>
        pheromones[i, j] == Evaporated(old(pheromones[i, j]), evaporationRate)
    {
      var n, m := pheromones.Length0, pheromones.Length1;
      var i := 0;
      while i < n
        invariant 0 <= i <= n
        invariant forall r, c :: 0 <= r < n && 0 <= c < m ==>
          pheromones[r, c] == if r < i then Evaporated(old(pheromones[r, c]), evaporationRate) else old(pheromones[r, c])
      {
        var j := 0;
        while j < m
          invariant 0 <= j <= m
          invariant forall r, c :: 0 <= r < n && 0 <= c < m ==>
            pheromones[r, c] ==
              if r < i || (r == i && c < j) then Evaporated(old(pheromones[r, c]), evaporationRate) else old(pheromones[r, c])
        {
          pheromones[i, j] := Evaporated(pheromones[i, j], evaporationRate);
          j := j + 1;
        }
        i := i + 1;
      }
    }

    /** Lays every ant's trail: `intensity / distanceTraveled` on the cell of each edge of its path. */
    method LayTrails()
      requires pheromones.Length0 == |cars| && pheromones.Length1 == |chargers|
      requires forall k :: 0 <= k < |ants| ==> WellFormedPath(ants[k].nodesVisited, |cars|, |chargers|)
      requires Reinforceable(ants)
      modifies pheromones
      ensures forall i, j :: 0 <= i < |cars| && 0 <= j < |chargers| ==>
        pheromones[i, j] == old(pheromones[i, j]) + Deposit(ants, i, j, pheromoneIntensity)
    {
      var n, m := pheromones.Length0, pheromones.Length1;
      var a := 0;
      while a < |ants|
        invariant 0 <= a <= |ants|
        invariant Reinforceable(ants[..a])
        invariant forall r, c :: 0 <= r < n && 0 <= c < m ==>
          pheromones[r, c] == old(pheromones[r, c]) + Deposit(ants[..a], r, c, pheromoneIntensity)
      {
        var ant := ants[a];
        assert ant in ants;
        if |ant.nodesVisited| >= 2 {
          LayTrail(ant.nodesVisited, pheromoneIntensity / ant.distanceTraveled as real);
        }
        assert ants[..a + 1][..a] == ants[..a];
        assert ants[..a + 1][a] == ant;
        a := a + 1;
      }
      assert ants[..|ants|] == ants;
    }

    /** Adds `amount` to the cell of every edge of `path`, in order. */
    method LayTrail(path: seq<Node>, amount: real)
      requires WellFormedPath(path, pheromones.Length0, pheromones.Length1)
      modifies pheromones
      ensures forall r, c :: 0 <= r < pheromones.Length0 && 0 <= c < pheromones.Length1 ==>
        pheromones[r, c] == old(pheromones[r, c]) + PathDeposit(path, r, c, amount)
    {
      var n, m := pheromones.Length0, pheromones.Length1;
      var idx := 0;
      assert forall r, c :: PathDeposit(path[..1], r, c, amount) == 0.0;
      while idx < |path| - 1
        invariant 0 <= idx <= |path| - 1
        invariant forall r, c :: 0 <= r < n && 0 <= c < m ==>
          pheromones[r, c] == old(pheromones[r, c]) + PathDeposit(path[..idx + 1], r, c, amount)
      {
        assert path[..idx + 2][..idx + 1] == path[..idx + 1];
        var cell := Cell(path[idx], path[idx + 1]);
        pheromones[cell.0, cell.1] := pheromones[cell.0, cell.1] + amount;
        idx := idx + 1;
      }
      assert path[..idx + 1] == path;
    }

    /** Evaporates every cell, then lays every ant's trail on the cells of its path. */
    method UpdatePheromones()
      requires pheromones.Length0 == |cars| && pheromones.Length1 == |chargers|
      requires forall k :: 0 <= k < |ants| ==> WellFormedPath(ants[k].nodesVisited, |cars|, |chargers|)
      requires Reinforceable(ants)
      modifies pheromones
      ensures Levels() == Reinforced(old(Levels()), evaporationRate, ants, pheromoneIntensity)
    {
      Evaporate();
      LayTrails();
      ghost var r := Reinforced(old(Levels()), evaporationRate, ants, pheromoneIntensity);
      forall i | 0 <= i < |cars|
        ensures Levels()[i] == r[i]
      {
        forall j | 0 <= j < |chargers|
          ensures Levels()[i][j] == r[i][j]
        {
          assert old(Levels())[i][j] == old(pheromones[i, j]);
        }
      }
    }

    /** The generation is over when no ant can move any more. */
    method GenerationDone() returns (done: bool)
      ensures done <==> forall k :: 0 <= k < |ants| ==> !Active(ants[k], |cars|)
    {
      done := true;
      var k := 0;
      while k < |ants|
        invariant 0 <= k <= |ants|
        invariant forall i :: 0 <= i < k ==> !Active(ants[i], |cars|)
      {
        if Active(ants[k], |cars|) {
          done := false;
          break;
        }
        k := k + 1;
      }
    }

    /** Every ant that is not done makes one move; `picks[k]` is ant k's draw from its candidates. */
    method MoveAnts(picks: seq<nat>)
      requires |picks| == |ants|
      requires forall k :: 0 <= k < |ants| ==> Movable(ants[k], distances, |cars|, |chargers|)
      requires forall k :: 0 <= k < |ants| && Active(ants[k], |cars|) ==> picks[k] < |Candidates(ants[k], |cars|)|
      modifies this`ants
      ensures ants == TickAll(old(ants), picks, distances, |cars|, |chargers|)
    {
      var i := 0;
      while i < |ants|
        invariant 0 <= i <= |ants| == |old(ants)|
        invariant forall k :: 0 <= k < i ==> ants[k] == Advance(old(ants)[k], picks[k], distances, |cars|, |chargers|)
        invariant forall k :: i <= k < |ants| ==> ants[k] == old(ants)[k]
      {
        if Active(ants[i], |cars|) {
          ants := ants[i := Move(ants[i], picks[i], distances, |cars|, |chargers|)];
        }
        i := i + 1;
      }
    }

    /** Every active ant makes one move; the simulation stays well formed. */
    method Tick(picks: seq<nat>)
      requires |picks| == |ants|
      requires forall k :: 0 <= k < |ants| && Active(ants[k], |cars|) ==> picks[k] < |Candidates(ants[k], |cars|)|
      requires Valid()
      modifies this`ants
      ensures ants == TickAll(old(ants), picks, distances, |cars|, |chargers|)
      ensures Valid()
    {
      TickAllPreservesPopulation(ants, picks, distances, |cars|, |chargers|);
      MoveAnts(picks);
    }

    /**
      One tick: every active ant makes one move, `picks[k]` being ant k's draw
      from its candidates; when the generation is then over, the pheromones are
      updated, the best path is folded in and a new generation is spawned from
      `spawns`. `moved` is the population right after the moves.
     */
    method Step(picks: seq<nat>, spawns: seq<nat>) returns (ghost moved: seq<Ant>)
      requires |picks| == |ants|
      requires forall k :: 0 <= k < |ants| && Active(ants[k], |cars|) ==> picks[k] < |Candidates(ants[k], |cars|)|
      requires SpawnPicks(spawns, numAnts, |cars|, |chargers|)
      requires Valid() && Separated()
      modifies this`ants, this`shortestPath, this`shortestDistance, pheromones
      ensures moved == TickAll(old(ants), picks, distances, |cars|, |chargers|)
      ensures AtMost(shortestDistance, old(shortestDistance))
      ensures !GenerationOver(moved, |cars|) ==>
        ants == moved && shortestPath == old(shortestPath) && shortestDistance == old(shortestDistance) &&
        Levels() == old(Levels())
      ensures GenerationOver(moved, |cars|) ==>
        Reinforceable(moved) &&
        Levels() == Reinforced(old(Levels()), evaporationRate, moved, pheromoneIntensity) &&
        (shortestPath, shortestDistance) == Tracked(moved, old(shortestPath), old(shortestDistance)) &&
        |ants| == numAnts && (forall k :: 0 <= k < numAnts ==> ants[k] == NewAnt(spawns[k], |chargers|))
      ensures Valid()
    {
      ghost var levels := Levels();
      Tick(picks);
      assert Levels() == levels;
      moved := ants;
      CheckGeneration(spawns);
    }

    /** Ends the generation when it is over, and otherwise changes nothing. */
    method CheckGeneration(spawns: seq<nat>)
      requires Valid() && Separated()
      requires SpawnPicks(spawns, numAnts, |cars|, |chargers|)
      modifies this`ants, this`shortestPath, this`shortestDistance, pheromones
      ensures AtMost(shortestDistance, old(shortestDistance))
      ensures !GenerationOver(old(ants), |cars|) ==>
        ants == old(ants) && shortestPath == old(shortestPath) && shortestDistance == old(shortestDistance) &&
        Levels() == old(Levels())
      ensures GenerationOver(old(ants), |cars|) ==>
        Reinforceable(old(ants)) &&
        Levels() == Reinforced(old(Levels()), evaporationRate, old(ants), pheromoneIntensity) &&
        (shortestPath, shortestDistance) == Tracked(old(ants), old(shortestPath), old(shortestDistance)) &&
        |ants| == numAnts && (forall k :: 0 <= k < numAnts ==> ants[k] == NewAnt(spawns[k], |chargers|))
      ensures Valid()
    {
      var done := GenerationDone();
      if |ants| > 0 && done {
        EndGeneration(spawns);
      }
    }

    /** The end of a generation: pheromone update, best-path update and respawn. */
    method EndGeneration(spawns: seq<nat>)
      requires Valid() && Separated() && |ants| > 0
      requires SpawnPicks(spawns, numAnts, |cars|, |chargers|)
      modifies this`ants, this`shortestPath, this`shortestDistance, pheromones
      ensures Reinforceable(old(ants))
      ensures Levels() == Reinforced(old(Levels()), evaporationRate, old(ants), pheromoneIntensity)
      ensures (shortestPath, shortestDistance) == Tracked(old(ants), old(shortestPath), old(shortestDistance))
      ensures AtMost(shortestDistance, old(shortestDistance))
      ensures |ants| == numAnts && forall k :: 0 <= k < numAnts ==> ants[k] == NewAnt(spawns[k], |chargers|)
      ensures Valid()
    {
      Reinforce();
      Respawn(spawns);
    }

    /** The finished generation's trails are laid and its best path is remembered; the ants stay. */
    method Reinforce()
      requires Valid() && Separated() && |ants| > 0
      modifies this`shortestPath, this`shortestDistance, pheromones
      ensures Reinforceable(ants)
      ensures Levels() == Reinforced(old(Levels()), evaporationRate, ants, pheromoneIntensity)
      ensures (shortestPath, shortestDistance) == Tracked(ants, old(shortestPath), old(shortestDistance))
      ensures AtMost(shortestDistance, old(shortestDistance))
      ensures Valid()
    {
      AntsReinforceable(ants, cars, chargers, distances);
      UpdatePheromones();
      ReinforcedPositive(old(Levels()), evaporationRate, ants, pheromoneIntensity);
      forall i, j | 0 <= i < pheromones.Length0 && 0 <= j < pheromones.Length1
        ensures pheromones[i, j] > 0.0
      {
        assert Levels()[i][j] == pheromones[i, j];
      }
      SaveShortestPath();
      TrackedIsMinimum(ants, old(shortestPath), old(shortestDistance));
      TrackedHoldsFirstShortest(ants, old(shortestPath), old(shortestDistance));
    }

    /** The next generation replaces the finished one. */
    method Respawn(spawns: seq<nat>)
      requires Valid() && |ants| > 0
      requires SpawnPicks(spawns, numAnts, |cars|, |chargers|)
      modifies this`ants
      ensures |ants| == numAnts && forall k :: 0 <= k < numAnts ==> ants[k] == NewAnt(spawns[k], |chargers|)
      ensures Valid()
    {
      SpawnAnts(spawns);
      FreshAntsValid(ants, spawns, distances, |cars|, |chargers|);
    }

    /**
      The reset cascade that follows every mouse press: the best path is
      forgotten, the distances recomputed, the pheromones reset to ones and a
      new generation spawned.
     */
    method Reset(spawns: seq<nat>)
      requires 0.0 <= evaporationRate < 1.0 && pheromoneIntensity > 0.0
      requires SpawnPicks(spawns, numAnts, |cars|, |chargers|)
      modifies this`shortestPath, this`shortestDistance, this`distances, this`pheromones, this`ants
      ensures shortestPath == None && shortestDistance == Infinity
      ensures Populated() ==> distances == DistanceTable(cars, chargers)
      ensures !Populated() ==> distances == old(distances)
      ensures Levels() == Ones(|cars|, |chargers|)
      ensures Populated() ==>
        |ants| == numAnts && forall k :: 0 <= k < numAnts ==> ants[k] == NewAnt(spawns[k], |chargers|)
      ensures !Populated() ==> ants == []
      ensures Valid() && fresh(pheromones)
    {
      ClearState();
      ghost var levels := Levels();
      SpawnAnts(spawns);
      assert Levels() == levels;
      if Populated() {
        FreshAntsValid(ants, spawns, distances, |cars|, |chargers|);
      } else {
        assert PopulationValid(ants, distances, |cars|, |chargers|);
      }
    }

    /** The first half of the reset cascade: everything but the respawn. */
    method ClearState()
      modifies this`shortestPath, this`shortestDistance, this`distances, this`pheromones
      ensures shortestPath == None && shortestDistance == Infinity
      ensures Populated() ==> distances == DistanceTable(cars, chargers) && Measures(distances, cars, chargers)
      ensures !Populated() ==> distances == old(distances)
      ensures fresh(pheromones)
      ensures pheromones.Length0 == |cars| && pheromones.Length1 == |chargers|
      ensures forall i, j :: 0 <= i < |cars| && 0 <= j < |chargers| ==> pheromones[i, j] == 1.0
      ensures Levels() == Ones(|cars|, |chargers|)
    {
      ResetShortestPath();
      CalculateDistances();
      InitializePheromones();
      if Populated() {
        DistanceTableIsManhattan(cars, chargers);
      }
    }

    /** A mouse press: the pressed button decides which list grows, then the reset cascade runs. */
    method PlacePoint(button: Button, p: Point, spawns: seq<nat>)
      requires Valid()
      requires SpawnPicks(spawns, numAnts,
        |cars| + (if button == Left then 1 else 0), |chargers| + (if button == Right then 1 else 0))
      modifies this
      ensures cars == if button == Left then old(cars) + [p] else old(cars)
      ensures chargers == if button == Right then old(chargers) + [p] else old(chargers)
      ensures shortestPath == None && shortestDistance == Infinity
      ensures Populated() ==> distances == DistanceTable(cars, chargers)
      ensures !Populated() ==> distances == old(distances)
      ensures Levels() == Ones(|cars|, |chargers|)
      ensures Populated() ==>
        |ants| == numAnts && forall k :: 0 <= k < numAnts ==> ants[k] == NewAnt(spawns[k], |chargers|)
      ensures !Populated() ==> ants == []
      ensures Valid() && fresh(pheromones)
    {
      if button == Left {
        cars := cars + [p];
      } else if button == Right {
        chargers := chargers + [p];
      }
      Reset(spawns);
    }
  }
}

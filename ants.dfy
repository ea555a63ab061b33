/**
  One ant: its record, the candidate moves it may make, the single move it
  makes per tick, the invariant every move keeps, and a rank that every move
  lowers, so that each generation ends.
 */
module Ants {
  import opened Graph

  /** Slots every charger offers each fresh ant. */
  const SlotCapacity: int := 2

  /** The per-ant record; `location` is always the last node of `nodesVisited`. */
  datatype Ant = Ant(
    distanceTraveled: int,
    carsVisited: set<nat>,
    chargerSlots: seq<int>,
    location: Node,
    nodesVisited: seq<Node>)

  function Last(path: seq<Node>): Node
    requires |path| > 0
  {
    path[|path| - 1]
  }

  /** A fresh ant standing on car `spawn`, with every charger slot available. */
  function NewAnt(spawn: nat, nChargers: nat): Ant {
    Ant(0, {}, seq(nChargers, _ => SlotCapacity), Car(spawn), [Car(spawn)])
  }

  /** The set {0, ..., n - 1}. */
  function Indices(n: nat): (s: set<nat>)
    ensures |s| == n
    ensures forall i: nat :: i in s <==> i < n
  {
    if n == 0 then {}
    else
      var below := Indices(n - 1);
      assert n - 1 !in below;
      below + {n - 1}
  }

  predicate Increasing(r: seq<nat>) {
    forall k1, k2 :: 0 <= k1 < k2 < |r| ==> r[k1] < r[k2]
  }

  /** The chargers that still have a free slot, in ascending order. */
  function FreeChargers(slots: seq<int>): (r: seq<nat>)
    ensures forall k :: 0 <= k < |r| ==> r[k] < |slots| && slots[r[k]] > 0
    ensures forall j :: 0 <= j < |slots| && slots[j] > 0 ==> j in r
    ensures Increasing(r)
  {
    if |slots| == 0 then []
    else
      var rest := FreeChargers(slots[..|slots| - 1]);
      if slots[|slots| - 1] > 0 then rest + [|slots| - 1] else rest
  }

  /** The cars below `nCars` not yet visited, in ascending order. */
  function UnvisitedCars(visited: set<nat>, nCars: nat): (r: seq<nat>)
    ensures forall k :: 0 <= k < |r| ==> r[k] < nCars && r[k] !in visited
    ensures forall c :: 0 <= c < nCars && c !in visited ==> c in r
    ensures Increasing(r)
  {
    if nCars == 0 then []
    else
      var rest := UnvisitedCars(visited, nCars - 1);
      if nCars - 1 !in visited then rest + [nCars - 1] else rest
  }

  /** The nodes an ant may move to next: free chargers from a car, unvisited cars from a charger. */
  function Candidates(a: Ant, nCars: nat): (r: seq<nat>) {
    match a.location
    case Car(_) => FreeChargers(a.chargerSlots)
    case Charger(_) => UnvisitedCars(a.carsVisited, nCars)
  }

  /** On a car the candidates are exactly the chargers with a free slot; on a charger, exactly the cars not yet visited. */
  lemma CandidatesExactly(a: Ant, nCars: nat)
    ensures a.location.Car? ==>
      forall g: nat :: g in Candidates(a, nCars) <==> g < |a.chargerSlots| && a.chargerSlots[g] > 0
    ensures a.location.Charger? ==>
      forall c: nat :: c in Candidates(a, nCars) <==> c < nCars && c !in a.carsVisited
  {
  }

  /** An ant keeps moving until it has visited every car or used up every slot. */
  predicate Active(a: Ant, nCars: nat) {
    |a.carsVisited| != nCars && Sum(a.chargerSlots) > 0
  }

  predicate InRange(v: Node, nCars: nat, nChargers: nat) {
    match v
    case Car(i) => i < nCars
    case Charger(j) => j < nChargers
  }

  /** A path starts at a car and alternates car, charger, car, ... over valid indices. */
  predicate WellFormedPath(path: seq<Node>, nCars: nat, nChargers: nat) {
    |path| > 0 &&
    forall k :: 0 <= k < |path| ==> path[k].Car? == (k % 2 == 0) && InRange(path[k], nCars, nChargers)
  }

  /** The cars an ant has already left: every car on its path except the one it stands on. */
  function CarsBefore(path: seq<Node>): set<nat> {
    set k | 0 <= k < |path| - 1 && path[k].Car? :: path[k].id
  }

  /** No car occurs twice on a path. */
  predicate DistinctCars(path: seq<Node>) {
    forall k1, k2 :: 0 <= k1 < k2 < |path| && path[k1].Car? ==> path[k1] != path[k2]
  }

  /** The total length of the edges of a well-formed path. */
  function PathLength(path: seq<Node>, dist: seq<seq<int>>, nCars: nat, nChargers: nat): int
    requires WellFormedPath(path, nCars, nChargers) && IsTable(dist, nCars, nChargers)
    decreases |path|
  {
    if |path| < 2 then 0
    else
      var cell := Cell(path[|path| - 2], path[|path| - 1]);
      PathLength(path[..|path| - 1], dist, nCars, nChargers) + dist[cell.0][cell.1]
  }

  /** What a move reads of an ant: its location and its slots index the distance table. */
  predicate Movable(a: Ant, dist: seq<seq<int>>, nCars: nat, nChargers: nat) {
    IsTable(dist, nCars, nChargers) && InRange(a.location, nCars, nChargers) && |a.chargerSlots| == nChargers
  }

  /** What every ant satisfies for the topology (car count, charger count, distance table) it was spawned in. */
  ghost predicate AntInvariant(a: Ant, dist: seq<seq<int>>, nCars: nat, nChargers: nat) {
    Movable(a, dist, nCars, nChargers) &&
    WellFormedPath(a.nodesVisited, nCars, nChargers) &&
    a.location == Last(a.nodesVisited) &&
    a.carsVisited == CarsBefore(a.nodesVisited) &&
    DistinctCars(a.nodesVisited) &&
    (forall j :: 0 <= j < nChargers ==>
      0 <= a.chargerSlots[j] == SlotCapacity - multiset(a.nodesVisited)[Charger(j)]) &&
    a.distanceTraveled == PathLength(a.nodesVisited, dist, nCars, nChargers)
  }

  /** The single move of an active ant; `pick` is the index the weighted random draw returned. */
  function Move(a: Ant, pick: nat, dist: seq<seq<int>>, nCars: nat, nChargers: nat): (b: Ant)
    requires Movable(a, dist, nCars, nChargers)
    requires Active(a, nCars)
    requires pick < |Candidates(a, nCars)|
    ensures b.nodesVisited == a.nodesVisited + [b.location]
    ensures b.location.id == Candidates(a, nCars)[pick] && b.location.Car? == a.location.Charger?
    ensures a.location.Car? ==>
      var g := b.location.id;
      g < nChargers && a.chargerSlots[g] > 0 &&
      b.chargerSlots == a.chargerSlots[g := a.chargerSlots[g] - 1] &&
      b.carsVisited == a.carsVisited + {a.location.id} &&
      b.distanceTraveled == a.distanceTraveled + dist[a.location.id][g]
    ensures a.location.Charger? ==>
      var c := b.location.id;
      c < nCars && c !in a.carsVisited &&
      b.chargerSlots == a.chargerSlots &&
      b.carsVisited == a.carsVisited &&
      b.distanceTraveled == a.distanceTraveled + dist[c][a.location.id]
  {
    match a.location
    case Car(c) =>
      var g := FreeChargers(a.chargerSlots)[pick];
      a.(carsVisited := a.carsVisited + {c},
         chargerSlots := a.chargerSlots[g := a.chargerSlots[g] - 1],
         location := Charger(g),
         distanceTraveled := a.distanceTraveled + dist[c][g],
         nodesVisited := a.nodesVisited + [Charger(g)])
    case Charger(g) =>
      var c := UnvisitedCars(a.carsVisited, nCars)[pick];
      a.(location := Car(c),
         distanceTraveled := a.distanceTraveled + dist[c][g],
         nodesVisited := a.nodesVisited + [Car(c)])
  }

  /** What one tick does to one ant: an active ant moves, a finished one is left as it is. */
  function Advance(a: Ant, pick: nat, dist: seq<seq<int>>, nCars: nat, nChargers: nat): (b: Ant)
    requires Movable(a, dist, nCars, nChargers)
    requires Active(a, nCars) ==> pick < |Candidates(a, nCars)|
    ensures Active(a, nCars) ==> b.nodesVisited == a.nodesVisited + [b.location]
    ensures !Active(a, nCars) ==> b == a
  {
    if Active(a, nCars) then Move(a, pick, dist, nCars, nChargers) else a
  }

  /** A tick keeps the ant invariant. */
  lemma AdvancePreservesInvariant(a: Ant, pick: nat, dist: seq<seq<int>>, nCars: nat, nChargers: nat)
    requires AntInvariant(a, dist, nCars, nChargers)
    requires Active(a, nCars) ==> pick < |Candidates(a, nCars)|
    ensures AntInvariant(Advance(a, pick, dist, nCars, nChargers), dist, nCars, nChargers)
  {
    if Active(a, nCars) {
      MovePreservesInvariant(a, pick, dist, nCars, nChargers);
    }
  }

  /**
    Every ant of a population satisfies the ant invariant. Stated by recursion
    rather than by a quantifier so that the verifier unfolds it only on demand;
    `PopulationValidIff` relates the two forms.
   */
  ghost predicate PopulationValid(ants: seq<Ant>, dist: seq<seq<int>>, nCars: nat, nChargers: nat)
    decreases |ants|
  {
    |ants| == 0 ||
    (PopulationValid(ants[..|ants| - 1], dist, nCars, nChargers) && AntInvariant(ants[|ants| - 1], dist, nCars, nChargers))
  }

  /** One tick for the whole population, ant by ant. */
  function TickAll(ants: seq<Ant>, picks: seq<nat>, dist: seq<seq<int>>, nCars: nat, nChargers: nat): (r: seq<Ant>)
    requires |picks| == |ants|
    requires forall i :: 0 <= i < |ants| ==> Movable(ants[i], dist, nCars, nChargers)
    requires forall i :: 0 <= i < |ants| && Active(ants[i], nCars) ==> picks[i] < |Candidates(ants[i], nCars)|
    ensures |r| == |ants|
    ensures forall i :: 0 <= i < |ants| ==> r[i] == Advance(ants[i], picks[i], dist, nCars, nChargers)
    decreases |ants|
  {
    if |ants| == 0 then []
    else
      var n := |ants| - 1;
      TickAll(ants[..n], picks[..n], dist, nCars, nChargers) + [Advance(ants[n], picks[n], dist, nCars, nChargers)]
  }

  /** The recursive and the quantified form of the population invariant agree. */
  lemma {:induction false} PopulationValidIff(ants: seq<Ant>, dist: seq<seq<int>>, nCars: nat, nChargers: nat)
    ensures PopulationValid(ants, dist, nCars, nChargers) <==>
      forall k :: 0 <= k < |ants| ==> AntInvariant(ants[k], dist, nCars, nChargers)
    decreases |ants|
  {
    if |ants| > 0 {
      var init := ants[..|ants| - 1];
      PopulationValidIff(init, dist, nCars, nChargers);
      assert forall k :: 0 <= k < |init| ==> init[k] == ants[k];
    }
  }

  /** A tick of the whole population keeps every ant's invariant, and so every ant movable. */
  lemma TickAllPreservesPopulation(ants: seq<Ant>, picks: seq<nat>, dist: seq<seq<int>>, nCars: nat, nChargers: nat)
    requires |picks| == |ants|
    requires PopulationValid(ants, dist, nCars, nChargers)
    requires forall i :: 0 <= i < |ants| && Active(ants[i], nCars) ==> picks[i] < |Candidates(ants[i], nCars)|
    ensures forall i :: 0 <= i < |ants| ==> Movable(ants[i], dist, nCars, nChargers)
    ensures PopulationValid(TickAll(ants, picks, dist, nCars, nChargers), dist, nCars, nChargers)
    ensures forall i :: 0 <= i < |ants| ==> Movable(TickAll(ants, picks, dist, nCars, nChargers)[i], dist, nCars, nChargers)
  {
    PopulationValidIff(ants, dist, nCars, nChargers);
    var r := TickAll(ants, picks, dist, nCars, nChargers);
    forall i | 0 <= i < |ants|
      ensures AntInvariant(r[i], dist, nCars, nChargers)
    {
      AdvancePreservesInvariant(ants[i], picks[i], dist, nCars, nChargers);
    }
    PopulationValidIff(r, dist, nCars, nChargers);
  }

  // ---------------------------------------------------------------------------
  // Lemmas about paths

  lemma {:induction false} SumPositiveHasPositive(s: seq<int>)
    requires Sum(s) > 0
    ensures exists j :: 0 <= j < |s| && s[j] > 0
  {
    if s[0] <= 0 {
      SumPositiveHasPositive(s[1..]);
      var j :| 0 <= j < |s[1..]| && s[1..][j] > 0;
      assert s[j + 1] > 0;
    }
  }

  lemma CarsBeforeInRange(path: seq<Node>, nCars: nat, nChargers: nat)
    requires WellFormedPath(path, nCars, nChargers)
    ensures CarsBefore(path) <= Indices(nCars)
    ensures |CarsBefore(path)| <= nCars
  {
    forall c | c in CarsBefore(path) ensures c < nCars {
      var k :| 0 <= k < |path| - 1 && path[k].Car? && path[k].id == c;
      assert InRange(path[k], nCars, nChargers);
    }
    assert CarsBefore(path) <= Indices(nCars);
    assert Indices(nCars) == CarsBefore(path) + (Indices(nCars) - CarsBefore(path));
  }

  /** A set of indices below n with fewer than n elements misses one of them. */
  lemma MissingIndex(s: set<nat>, n: nat)
    requires s <= Indices(n) && |s| != n
    ensures exists c :: 0 <= c < n && c !in s
  {
    var missing := Indices(n) - s;
    assert Indices(n) == s + missing;
    assert missing != {};
    var c :| c in missing;
    assert 0 <= c < n && c !in s;
  }

  /** The car an ant stands on is never one it has already left. */
  lemma LocationNotVisited(a: Ant, dist: seq<seq<int>>, nCars: nat, nChargers: nat)
    requires AntInvariant(a, dist, nCars, nChargers)
    ensures a.location.Car? ==> a.location.id !in a.carsVisited
  {
  }

  lemma PathLengthSnoc(path: seq<Node>, v: Node, dist: seq<seq<int>>, nCars: nat, nChargers: nat)
    requires WellFormedPath(path, nCars, nChargers) && WellFormedPath(path + [v], nCars, nChargers)
    requires IsTable(dist, nCars, nChargers)
    ensures var cell := Cell(Last(path), v);
      cell.0 < nCars && cell.1 < nChargers &&
      PathLength(path + [v], dist, nCars, nChargers) == PathLength(path, dist, nCars, nChargers) + dist[cell.0][cell.1]
  {
    var p := path + [v];
    assert p[..|p| - 1] == path;
    assert InRange(p[|p| - 2], nCars, nChargers) && InRange(p[|p| - 1], nCars, nChargers);
  }

  lemma CarsBeforeSnoc(path: seq<Node>, v: Node)
    requires |path| > 0
    ensures CarsBefore(path + [v]) == CarsBefore(path) + (if Last(path).Car? then {Last(path).id} else {})
  {
    var p := path + [v];
    var extra := if Last(path).Car? then {Last(path).id} else {};
    forall c | c in CarsBefore(p) ensures c in CarsBefore(path) + extra {
      var k :| 0 <= k < |p| - 1 && p[k].Car? && p[k].id == c;
      if k < |path| - 1 {
        assert path[k] == p[k];
      }
    }
    forall c | c in CarsBefore(path) + extra ensures c in CarsBefore(p) {
      if c in CarsBefore(path) {
        var k :| 0 <= k < |path| - 1 && path[k].Car? && path[k].id == c;
        assert p[k] == path[k];
      } else {
        assert p[|path| - 1] == Last(path);
      }
    }
  }

  lemma SnocWellFormed(path: seq<Node>, v: Node, nCars: nat, nChargers: nat)
    requires WellFormedPath(path, nCars, nChargers)
    requires v.Car? != Last(path).Car? && InRange(v, nCars, nChargers)
    ensures WellFormedPath(path + [v], nCars, nChargers)
  {
    var p := path + [v];
    var n := |path| - 1;
    assert path[n].Car? == (n % 2 == 0);
    assert (n % 2 == 0) != ((n + 1) % 2 == 0);
    forall k | 0 <= k < |p|
      ensures p[k].Car? == (k % 2 == 0) && InRange(p[k], nCars, nChargers)
    {
      if k < |path| { assert p[k] == path[k]; }
    }
  }

  lemma SnocDistinct(path: seq<Node>, v: Node)
    requires |path| > 0 && DistinctCars(path)
    requires v.Car? ==> Last(path).Charger? && v.id !in CarsBefore(path)
    ensures DistinctCars(path + [v])
  {
    var p := path + [v];
    forall k1, k2 | 0 <= k1 < k2 < |p| && p[k1].Car?
      ensures p[k1] != p[k2]
    {
      assert p[k1] == path[k1];
      if k2 < |path| {
        assert p[k2] == path[k2];
      } else if v.Car? {
        assert k1 < |path| - 1;
        assert path[k1].id in CarsBefore(path);
      }
    }
  }

  lemma MoveKeepsPath(a: Ant, pick: nat, dist: seq<seq<int>>, nCars: nat, nChargers: nat)
    requires AntInvariant(a, dist, nCars, nChargers)
    requires Active(a, nCars)
    requires pick < |Candidates(a, nCars)|
    ensures var b := Move(a, pick, dist, nCars, nChargers);
      WellFormedPath(b.nodesVisited, nCars, nChargers) &&
      b.location == Last(b.nodesVisited) &&
      b.carsVisited == CarsBefore(b.nodesVisited) &&
      DistinctCars(b.nodesVisited)
  {
    var b := Move(a, pick, dist, nCars, nChargers);
    var path, v := a.nodesVisited, b.location;
    assert InRange(v, nCars, nChargers);
    SnocWellFormed(path, v, nCars, nChargers);
    CarsBeforeSnoc(path, v);
    SnocDistinct(path, v);
  }

  /** A move keeps every slot count equal to the capacity minus the visits to that charger. */
  lemma MoveKeepsSlots(a: Ant, pick: nat, dist: seq<seq<int>>, nCars: nat, nChargers: nat)
    requires AntInvariant(a, dist, nCars, nChargers)
    requires Active(a, nCars)
    requires pick < |Candidates(a, nCars)|
    ensures var b := Move(a, pick, dist, nCars, nChargers);
      |b.chargerSlots| == nChargers &&
      forall j :: 0 <= j < nChargers ==>
        0 <= b.chargerSlots[j] == SlotCapacity - multiset(b.nodesVisited)[Charger(j)]
  {
    var b := Move(a, pick, dist, nCars, nChargers);
    var path, v := a.nodesVisited, b.location;
    forall j | 0 <= j < nChargers
      ensures 0 <= b.chargerSlots[j] == SlotCapacity - multiset(b.nodesVisited)[Charger(j)]
    {
      assert multiset(path + [v])[Charger(j)] == multiset(path)[Charger(j)] + (if v == Charger(j) then 1 else 0);
    }
  }

  /** A move keeps the distance travelled equal to the length of the path. */
  lemma MoveKeepsLength(a: Ant, pick: nat, dist: seq<seq<int>>, nCars: nat, nChargers: nat)
    requires AntInvariant(a, dist, nCars, nChargers)
    requires Active(a, nCars)
    requires pick < |Candidates(a, nCars)|
    requires WellFormedPath(Move(a, pick, dist, nCars, nChargers).nodesVisited, nCars, nChargers)
    ensures var b := Move(a, pick, dist, nCars, nChargers);
      b.distanceTraveled == PathLength(b.nodesVisited, dist, nCars, nChargers)
  {
    PathLengthSnoc(a.nodesVisited, Move(a, pick, dist, nCars, nChargers).location, dist, nCars, nChargers);
  }

  /** Over a table of positive distances, a path that has moved has a positive length. */
  lemma {:induction false} PathLengthPositive(path: seq<Node>, dist: seq<seq<int>>, nCars: nat, nChargers: nat)
    requires WellFormedPath(path, nCars, nChargers) && IsTable(dist, nCars, nChargers)
    requires forall i, j :: 0 <= i < nCars && 0 <= j < nChargers ==> dist[i][j] > 0
    ensures PathLength(path, dist, nCars, nChargers) >= 0
    ensures |path| > 1 ==> PathLength(path, dist, nCars, nChargers) > 0
    decreases |path|
  {
    if |path| > 1 {
      var init := path[..|path| - 1];
      assert WellFormedPath(init, nCars, nChargers) by {
        forall k | 0 <= k < |init| ensures init[k] == path[k] { }
      }
      PathLengthPositive(init, dist, nCars, nChargers);
      assert InRange(path[|path| - 2], nCars, nChargers) && InRange(path[|path| - 1], nCars, nChargers);
    }
  }

  /** Every move keeps the ant invariant: in particular no slot goes below zero and no car is visited twice. */
  lemma MovePreservesInvariant(a: Ant, pick: nat, dist: seq<seq<int>>, nCars: nat, nChargers: nat)
    requires AntInvariant(a, dist, nCars, nChargers)
    requires Active(a, nCars)
    requires pick < |Candidates(a, nCars)|
    ensures AntInvariant(Move(a, pick, dist, nCars, nChargers), dist, nCars, nChargers)
  {
    MoveKeepsPath(a, pick, dist, nCars, nChargers);
    MoveKeepsSlots(a, pick, dist, nCars, nChargers);
    MoveKeepsLength(a, pick, dist, nCars, nChargers);
  }

  // ---------------------------------------------------------------------------
  // Progress: every active ant has somewhere to go, and every move lowers its rank

  /** An active ant always has at least one candidate, so the random draw never sees an empty list. */
  lemma CandidatesNonEmpty(a: Ant, dist: seq<seq<int>>, nCars: nat, nChargers: nat)
    requires AntInvariant(a, dist, nCars, nChargers)
    requires Active(a, nCars)
    ensures |Candidates(a, nCars)| > 0
  {
    match a.location
    case Car(_) =>
      SumPositiveHasPositive(a.chargerSlots);
      var j :| 0 <= j < |a.chargerSlots| && a.chargerSlots[j] > 0;
      assert j in FreeChargers(a.chargerSlots);
    case Charger(_) =>
      CarsBeforeInRange(a.nodesVisited, nCars, nChargers);
      MissingIndex(a.carsVisited, nCars);
      var c :| 0 <= c < nCars && c !in a.carsVisited;
      assert c in UnvisitedCars(a.carsVisited, nCars);
  }

  /** Twice the number of cars still to leave, plus one while standing on a charger. */
  function Rank(a: Ant, nCars: nat): int {
    2 * (nCars - |a.carsVisited|) + (if a.location.Charger? then 1 else 0)
  }

  lemma ActiveRank(a: Ant, dist: seq<seq<int>>, nCars: nat, nChargers: nat)
    requires AntInvariant(a, dist, nCars, nChargers)
    requires Active(a, nCars)
    ensures Rank(a, nCars) >= 2
  {
    CarsBeforeInRange(a.nodesVisited, nCars, nChargers);
  }

  /** Each move lowers the rank by exactly one, and an active ant has rank at least two. */
  lemma MoveLowersRank(a: Ant, pick: nat, dist: seq<seq<int>>, nCars: nat, nChargers: nat)
    requires AntInvariant(a, dist, nCars, nChargers)
    requires Active(a, nCars)
    requires pick < |Candidates(a, nCars)|
    ensures Rank(a, nCars) >= 2
    ensures Rank(Move(a, pick, dist, nCars, nChargers), nCars) == Rank(a, nCars) - 1
  {
    ActiveRank(a, dist, nCars, nChargers);
    LocationNotVisited(a, dist, nCars, nChargers);
  }

  /** A fresh ant on a valid car satisfies the invariant, has rank 2 * nCars, and is active when both lists are non-empty. */
  lemma NewAntProperties(spawn: nat, dist: seq<seq<int>>, nCars: nat, nChargers: nat)
    requires spawn < nCars
    requires IsTable(dist, nCars, nChargers)
    ensures AntInvariant(NewAnt(spawn, nChargers), dist, nCars, nChargers)
    ensures Rank(NewAnt(spawn, nChargers), nCars) == 2 * nCars
    ensures Active(NewAnt(spawn, nChargers), nCars) <==> nChargers > 0
  {
    var a := NewAnt(spawn, nChargers);
    assert CarsBefore(a.nodesVisited) == {};
    SumOfFullSlots(nChargers);
  }

  lemma {:induction false} SumOfFullSlots(m: nat)
    ensures Sum(seq(m, _ => SlotCapacity)) == SlotCapacity * m
  {
    if m > 0 {
      var s := seq(m, _ => SlotCapacity);
      assert s[1..] == seq(m - 1, _ => SlotCapacity);
      SumOfFullSlots(m - 1);
    }
  }

  // ---------------------------------------------------------------------------
  // Termination of a generation

  /** A generation is over when it has ants and none of them can move any more. */
  predicate GenerationOver(ants: seq<Ant>, nCars: nat) {
    |ants| > 0 && forall k :: 0 <= k < |ants| ==> !Active(ants[k], nCars)
  }

  /** The ants a generation starts with: one fresh ant per spawn car. */
  function Spawned(spawns: seq<nat>, nChargers: nat): seq<Ant> {
    seq(|spawns|, k requires 0 <= k < |spawns| => NewAnt(spawns[k], nChargers))
  }

  /** Every ant of a generation spawned on cars satisfies the ant invariant and has rank 2 * nCars. */
  lemma SpawnedValid(spawns: seq<nat>, dist: seq<seq<int>>, nCars: nat, nChargers: nat)
    requires forall k :: 0 <= k < |spawns| ==> spawns[k] < nCars
    requires IsTable(dist, nCars, nChargers)
    ensures forall i :: 0 <= i < |spawns| ==>
      AntInvariant(Spawned(spawns, nChargers)[i], dist, nCars, nChargers) &&
      Rank(Spawned(spawns, nChargers)[i], nCars) == 2 * nCars
  {
    forall i | 0 <= i < |spawns|
      ensures AntInvariant(Spawned(spawns, nChargers)[i], dist, nCars, nChargers)
      ensures Rank(Spawned(spawns, nChargers)[i], nCars) == 2 * nCars
    {
      NewAntProperties(spawns[i], dist, nCars, nChargers);
    }
  }

  /**
    `rounds` are valid draws for successive ticks of the whole population:
    `rounds[t][k]` is ant k's draw in tick t, taken among that ant's candidates
    at that moment.
   */
  ghost predicate ValidRounds(ants: seq<Ant>, rounds: seq<seq<nat>>, dist: seq<seq<int>>, nCars: nat, nChargers: nat)
    decreases |rounds|
  {
    |rounds| == 0 ||
    (|rounds[0]| == |ants| &&
     (forall i :: 0 <= i < |ants| ==> Movable(ants[i], dist, nCars, nChargers)) &&
     (forall i :: 0 <= i < |ants| && Active(ants[i], nCars) ==> rounds[0][i] < |Candidates(ants[i], nCars)|) &&
     ValidRounds(TickAll(ants, rounds[0], dist, nCars, nChargers), rounds[1..], dist, nCars, nChargers))
  }

  /** The population after one whole-population tick per round. */
  ghost function RunAll(ants: seq<Ant>, rounds: seq<seq<nat>>, dist: seq<seq<int>>, nCars: nat, nChargers: nat): seq<Ant>
    requires ValidRounds(ants, rounds, dist, nCars, nChargers)
    decreases |rounds|
  {
    if |rounds| == 0 then ants
    else
      RunAll(TickAll(ants, rounds[0], dist, nCars, nChargers), rounds[1..], dist, nCars, nChargers)
  }

  /** Every ant that is still active and has rank at most |rounds| + 1 is done after the rounds; done ants stay done. */
  lemma {:induction false} PopulationFinishesWithin(ants: seq<Ant>, rounds: seq<seq<nat>>, dist: seq<seq<int>>, nCars: nat, nChargers: nat)
    requires forall i :: 0 <= i < |ants| ==> AntInvariant(ants[i], dist, nCars, nChargers)
    requires ValidRounds(ants, rounds, dist, nCars, nChargers)
    requires forall i :: 0 <= i < |ants| && Active(ants[i], nCars) ==> Rank(ants[i], nCars) <= |rounds| + 1
    ensures |RunAll(ants, rounds, dist, nCars, nChargers)| == |ants|
    ensures forall i :: 0 <= i < |ants| ==> !Active(RunAll(ants, rounds, dist, nCars, nChargers)[i], nCars)
    decreases |rounds|
  {
    if |rounds| == 0 {
      forall i | 0 <= i < |ants|
        ensures !Active(ants[i], nCars)
      {
        if Active(ants[i], nCars) {
          ActiveRank(ants[i], dist, nCars, nChargers);
        }
      }
    } else {
      var next := TickAll(ants, rounds[0], dist, nCars, nChargers);
      forall i | 0 <= i < |ants|
        ensures AntInvariant(next[i], dist, nCars, nChargers)
        ensures Active(next[i], nCars) ==> Rank(next[i], nCars) <= |rounds[1..]| + 1
      {
        AdvancePreservesInvariant(ants[i], rounds[0][i], dist, nCars, nChargers);
        if Active(ants[i], nCars) {
          MoveLowersRank(ants[i], rounds[0][i], dist, nCars, nChargers);
        }
      }
      PopulationFinishesWithin(next, rounds[1..], dist, nCars, nChargers);
    }
  }

  /**
    A generation of ants spawned on cars is over after at most 2 * nCars - 1
    ticks, whatever the random draws.
   */
  lemma GenerationEnds(spawns: seq<nat>, rounds: seq<seq<nat>>, dist: seq<seq<int>>, nCars: nat, nChargers: nat)
    requires |spawns| > 0 && forall k :: 0 <= k < |spawns| ==> spawns[k] < nCars
    requires IsTable(dist, nCars, nChargers)
    requires ValidRounds(Spawned(spawns, nChargers), rounds, dist, nCars, nChargers)
    requires |rounds| >= 2 * nCars - 1
    ensures GenerationOver(RunAll(Spawned(spawns, nChargers), rounds, dist, nCars, nChargers), nCars)
  {
    SpawnedValid(spawns, dist, nCars, nChargers);
    PopulationFinishesWithin(Spawned(spawns, nChargers), rounds, dist, nCars, nChargers);
  }
}

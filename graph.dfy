/**
  Nodes of the bipartite car/charger graph and the table of car-to-charger
  distances derived from their coordinates.
 */
module Graph {

  /** A point on the drawing surface, with integer coordinates. */
  datatype Point = Point(x: int, y: int)

  /** A reference to a car or to a charger by its position in the respective list. */
  datatype Node = Car(id: nat) | Charger(id: nat)

  function Abs(v: int): nat {
    if v < 0 then -v else v
  }

  /** Sum of a sequence of integers. */
  function Sum(s: seq<int>): int {
    if |s| == 0 then 0 else s[0] + Sum(s[1..])
  }

  /** The L1 distance between two points. */
  function Manhattan(p: Point, q: Point): nat {
    Abs(p.x - q.x) + Abs(p.y - q.y)
  }

  /** `t` is a matrix with `rows` rows of `cols` entries each. */
  predicate IsTable<T>(t: seq<seq<T>>, rows: nat, cols: nat) {
    |t| == rows && forall i :: 0 <= i < rows ==> |t[i]| == cols
  }

  /** The car and charger indices of the matrix cell that the edge from `u` to `v` uses. */
  function Cell(u: Node, v: Node): (r: (nat, nat))
    ensures u.Car? != v.Car? ==> Car(r.0) in {u, v} && Charger(r.1) in {u, v}
  {
    if u.Car? then (u.id, v.id) else (v.id, u.id)
  }

  /** The cars-by-chargers-by-2 tensor of coordinate differences (a broadcast subtraction). */
  function Differences(cars: seq<Point>, chargers: seq<Point>): seq<seq<seq<int>>> {
    seq(|cars|, i requires 0 <= i < |cars| =>
      seq(|chargers|, j requires 0 <= j < |chargers| =>
        [cars[i].x - chargers[j].x, cars[i].y - chargers[j].y]))
  }

  /** Element-wise absolute value of a rank-3 tensor. */
  function AbsAll(t: seq<seq<seq<int>>>): seq<seq<seq<int>>> {
    seq(|t|, i requires 0 <= i < |t| =>
      seq(|t[i]|, j requires 0 <= j < |t[i]| =>
        seq(|t[i][j]|, k requires 0 <= k < |t[i][j]| => Abs(t[i][j][k]) as int)))
  }

  /** Reduction of a rank-3 tensor by summing along its last axis. */
  function SumLastAxis(t: seq<seq<seq<int>>>): seq<seq<int>> {
    seq(|t|, i requires 0 <= i < |t| =>
      seq(|t[i]|, j requires 0 <= j < |t[i]| => Sum(t[i][j])))
  }

  /** The distance table as the source computes it: absolute differences summed over the two coordinates. */
  function DistanceTable(cars: seq<Point>, chargers: seq<Point>): (r: seq<seq<int>>)
    ensures IsTable(r, |cars|, |chargers|)
  {
    SumLastAxis(AbsAll(Differences(cars, chargers)))
  }

  /** The vectorised table is the pointwise Manhattan distance, with one row per car and one column per charger. */
  lemma DistanceTableIsManhattan(cars: seq<Point>, chargers: seq<Point>)
    ensures IsTable(DistanceTable(cars, chargers), |cars|, |chargers|)
    ensures forall i, j :: 0 <= i < |cars| && 0 <= j < |chargers| ==>
      DistanceTable(cars, chargers)[i][j] == Manhattan(cars[i], chargers[j])
  {
    var t := DistanceTable(cars, chargers);
    forall i, j | 0 <= i < |cars| && 0 <= j < |chargers|
      ensures t[i][j] == Manhattan(cars[i], chargers[j])
    {
      var v := AbsAll(Differences(cars, chargers))[i][j];
      assert v == [Abs(cars[i].x - chargers[j].x) as int, Abs(cars[i].y - chargers[j].y) as int];
      assert Sum(v) == v[0] + Sum(v[1..]);
      assert v[1..] == [v[1]];
    }
  }

  /** A car and a charger are at distance zero exactly when they stand on the same point. */
  lemma ManhattanZeroIff(p: Point, q: Point)
    ensures Manhattan(p, q) == 0 <==> p == q
  {
  }

  /** `dist` holds the Manhattan distance from every car to every charger. */
  ghost predicate Measures(dist: seq<seq<int>>, cars: seq<Point>, chargers: seq<Point>) {
    IsTable(dist, |cars|, |chargers|) &&
    forall i, j :: 0 <= i < |cars| && 0 <= j < |chargers| ==> dist[i][j] == Manhattan(cars[i], chargers[j])
  }

  /** When no car stands on a charger, every entry of a table of their distances is positive. */
  lemma SeparatedDistancesPositive(dist: seq<seq<int>>, cars: seq<Point>, chargers: seq<Point>)
    requires Measures(dist, cars, chargers)
    requires forall i, j :: 0 <= i < |cars| && 0 <= j < |chargers| ==> cars[i] != chargers[j]
    ensures forall i, j :: 0 <= i < |cars| && 0 <= j < |chargers| ==> dist[i][j] > 0
  {
    forall i, j | 0 <= i < |cars| && 0 <= j < |chargers|
      ensures dist[i][j] > 0
    {
      ManhattanZeroIff(cars[i], chargers[j]);
    }
  }
}

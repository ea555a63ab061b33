/**
  The best path seen since the last change of topology: the shortest
  `distanceTraveled` of any ant of a finished generation, with that ant's path.
 */
module Tracker {
  import opened Graph
  import opened Ants

  datatype Option<T> = None | Some(value: T)

  /** A distance that may be infinite; the best distance starts out infinite. */
  datatype Extended = Infinity | Finite(value: int)

  /** `d` is strictly shorter than `e`. */
  predicate Below(d: int, e: Extended) {
    e.Infinity? || d < e.value
  }

  /** `e` is no longer than `f`. */
  predicate AtMost(e: Extended, f: Extended) {
    f.Infinity? || (e.Finite? && e.value <= f.value)
  }

  /** The best path and distance after considering `ants` in order, starting from (`path`, `best`). */
  function Tracked(ants: seq<Ant>, path: Option<seq<Node>>, best: Extended): (r: (Option<seq<Node>>, Extended))
    decreases |ants|
  {
    if |ants| == 0 then (path, best)
    else
      var (p, d) := Tracked(ants[..|ants| - 1], path, best);
      var a := ants[|ants| - 1];
      if Below(a.distanceTraveled, d) then (Some(a.nodesVisited), Finite(a.distanceTraveled)) else (p, d)
  }

  /** The fold keeps the record's two halves in step: the path is absent exactly when the distance is infinite. */
  lemma {:induction false} TrackedKeepsPairing(ants: seq<Ant>, path: Option<seq<Node>>, best: Extended)
    requires path.None? <==> best.Infinity?
    ensures Tracked(ants, path, best).0.None? <==> Tracked(ants, path, best).1.Infinity?
    decreases |ants|
  {
    if |ants| > 0 {
      TrackedKeepsPairing(ants[..|ants| - 1], path, best);
    }
  }

  /** The tracked distance never grows and ends no longer than any ant's distance. */
  lemma {:induction false} TrackedIsMinimum(ants: seq<Ant>, path: Option<seq<Node>>, best: Extended)
    ensures AtMost(Tracked(ants, path, best).1, best)
    ensures forall k :: 0 <= k < |ants| ==> AtMost(Tracked(ants, path, best).1, Finite(ants[k].distanceTraveled))
    decreases |ants|
  {
    if |ants| > 0 {
      TrackedIsMinimum(ants[..|ants| - 1], path, best);
    }
  }

  /** The record is left untouched exactly when no ant beat the starting distance. */
  lemma {:induction false} TrackedUnchangedIff(ants: seq<Ant>, path: Option<seq<Node>>, best: Extended)
    ensures Tracked(ants, path, best) == (path, best) <==>
      forall k :: 0 <= k < |ants| ==> !Below(ants[k].distanceTraveled, best)
    decreases |ants|
  {
    TrackedIsMinimum(ants, path, best);
    if |ants| > 0 {
      var init := ants[..|ants| - 1];
      TrackedUnchangedIff(init, path, best);
      if forall k :: 0 <= k < |ants| ==> !Below(ants[k].distanceTraveled, best) {
        assert forall k :: 0 <= k < |init| ==> init[k] == ants[k];
      }
    }
  }

  /** Ant k is strictly shorter than every ant before it. */
  predicate FirstOfLength(ants: seq<Ant>, k: int)
    requires 0 <= k < |ants|
  {
    forall k' :: 0 <= k' < k ==> ants[k'].distanceTraveled > ants[k].distanceTraveled
  }

  /** A changed record holds the path and distance of the first ant with the shortest distance. */
  lemma {:induction false} TrackedHoldsFirstShortest(ants: seq<Ant>, path: Option<seq<Node>>, best: Extended)
    ensures Tracked(ants, path, best) != (path, best) ==>
      exists k :: 0 <= k < |ants| &&
        Tracked(ants, path, best) == (Some(ants[k].nodesVisited), Finite(ants[k].distanceTraveled)) &&
        FirstOfLength(ants, k)
    decreases |ants|
  {
    if |ants| > 0 {
      var n := |ants| - 1;
      var init, a := ants[..n], ants[n];
      var (p, d) := Tracked(init, path, best);
      if Below(a.distanceTraveled, d) {
        TrackedIsMinimum(init, path, best);
        forall k' | 0 <= k' < n
          ensures ants[k'].distanceTraveled > a.distanceTraveled
        {
          assert AtMost(d, Finite(init[k'].distanceTraveled));
        }
        assert FirstOfLength(ants, n);
      } else if (p, d) != (path, best) {
        TrackedHoldsFirstShortest(init, path, best);
        var k :| 0 <= k < n &&
          (p, d) == (Some(init[k].nodesVisited), Finite(init[k].distanceTraveled)) &&
          FirstOfLength(init, k);
        assert ants[k] == init[k];
        assert FirstOfLength(ants, k) by {
          forall k' | 0 <= k' < k ensures ants[k'] == init[k'] { }
        }
      }
    }
  }
}

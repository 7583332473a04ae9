/** Breadth-first search back from a goal over any finite graph given by its
    reverse edges. */
module BackwardSearch {

  /** `s` is `d` edges away from the goal along some walk. */
  ghost predicate ReachesIn<N(!new)>(before: N -> seq<N>, goal: N, s: N, d: nat) {
    if d == 0 then s == goal
    else exists t :: s in before(t) && ReachesIn(before, goal, t, d - 1)
  }

  ghost predicate IsShortest<N(!new)>(before: N -> seq<N>, goal: N, s: N, d: nat) {
    ReachesIn(before, goal, s, d) && forall k: nat :: ReachesIn(before, goal, s, k) ==> d <= k
  }

  /** The map holds exactly the nodes that reach the goal, each at its distance. */
  ghost predicate MapsDistances<N(!new)>(before: N -> seq<N>, goal: N, distance: map<N, nat>) {
    && (forall s :: s in distance ==> IsShortest(before, goal, s, distance[s]))
    && (forall s, d: nat :: ReachesIn(before, goal, s, d) ==> s in distance)
  }

  /** Every node taken off the queue has had its predecessors entered, at most one
      step farther out. */
  ghost predicate ClosedBackwards<N(!new)>(before: N -> seq<N>, distance: map<N, nat>, frontier: seq<N>) {
    forall t, s :: t in distance && t !in frontier && s in before(t) ==>
      s in distance && distance[s] <= distance[t] + 1
  }

  ghost predicate Sound<N(!new)>(before: N -> seq<N>, goal: N, distance: map<N, nat>) {
    && (forall s :: s in distance ==> ReachesIn(before, goal, s, distance[s]))
    && goal in distance && distance[goal] == 0
  }

  /** The queue, nearest first: every entry is known, and no known node is more
      than one step farther than `nearest`. */
  ghost predicate Ordered<N(!new)>(distance: map<N, nat>, frontier: seq<N>, nearest: nat) {
    && (forall t :: t in frontier ==> t in distance && nearest <= distance[t])
    && (forall i, j :: 0 <= i < j < |frontier| ==> distance[frontier[i]] <= distance[frontier[j]])
    && (forall s :: s in distance ==> distance[s] <= nearest + 1)
  }

  /** What holds between two nodes taken off the queue. */
  ghost predicate Between<N(!new)>(before: N -> seq<N>, goal: N, distance: map<N, nat>, frontier: seq<N>) {
    && Sound(before, goal, distance)
    && (frontier != [] ==> frontier[0] in distance && Ordered(distance, frontier, distance[frontier[0]]))
    && ClosedBackwards(before, distance, frontier)
  }

  /** What holds while the predecessors of `t` are being entered. */
  ghost predicate Expanding<N(!new)>(before: N -> seq<N>, goal: N, distance: map<N, nat>, t: N, frontier: seq<N>) {
    && Sound(before, goal, distance)
    && t in distance && Ordered(distance, frontier, distance[t])
    && ClosedBackwards(before, distance, [t] + frontier)
  }

  lemma StartExpanding<N(!new)>(before: N -> seq<N>, goal: N, distance: map<N, nat>, frontier: seq<N>)
    requires frontier != [] && Between(before, goal, distance, frontier)
    ensures Expanding(before, goal, distance, frontier[0], frontier[1..])
  {
    assert [frontier[0]] + frontier[1..] == frontier;
  }

  lemma Discover<N(!new)>(before: N -> seq<N>, goal: N, distance: map<N, nat>, t: N, frontier: seq<N>, s: N)
    requires Expanding(before, goal, distance, t, frontier)
    requires s in before(t) && s !in distance
    ensures Expanding(before, goal, distance[s := distance[t] + 1], t, frontier + [s])
  {
    var d := distance[t] + 1;
    assert ReachesIn(before, goal, s, d);
    var pending, extended := [t] + frontier, [t] + (frontier + [s]);
    assert forall u :: u in extended <==> u in pending || u == s;
  }

  lemma FinishExpanding<N(!new)>(before: N -> seq<N>, goal: N, distance: map<N, nat>, t: N, frontier: seq<N>)
    requires Expanding(before, goal, distance, t, frontier)
    requires forall s :: s in before(t) ==> s in distance
    ensures Between(before, goal, distance, frontier)
  {
    assert forall u :: u in [t] + frontier <==> u == t || u in frontier;
  }

  lemma {:induction false} ClosedMapIsShortest<N(!new)>(before: N -> seq<N>, goal: N, distance: map<N, nat>, s: N, d: nat)
    requires Between(before, goal, distance, []) && ReachesIn(before, goal, s, d)
    ensures s in distance && distance[s] <= d
  {
    if d > 0 {
      var t :| s in before(t) && ReachesIn(before, goal, t, d - 1);
      ClosedMapIsShortest(before, goal, distance, t, d - 1);
    }
  }

  /** The inner loop: enters the predecessors of `t` that are still unknown, one
      step farther out, at the back of the queue. */
  method EnterPredecessors<N(==, !new)>(before: N -> seq<N>, ghost goal: N, t: N, known: map<N, nat>, waiting: seq<N>,
                                        ghost universe: set<N>)
    returns (distance: map<N, nat>, frontier: seq<N>)
    requires Expanding(before, goal, known, t, waiting)
    requires known.Keys <= universe && forall s :: s in before(t) ==> s in universe
    ensures Between(before, goal, distance, frontier)
    ensures known.Keys <= distance.Keys <= universe
    ensures distance.Keys == known.Keys ==> frontier == waiting
  {
    hide ReachesIn;
    distance, frontier := known, waiting;
    var befores := before(t);
    for i := 0 to |befores|
      invariant Expanding(before, goal, distance, t, frontier)
      invariant forall s :: s in befores[..i] ==> s in distance
      invariant known.Keys <= distance.Keys <= universe
      invariant distance.Keys == known.Keys ==> frontier == waiting
    {
      var s := befores[i];
      if s !in distance {
        Discover(before, goal, distance, t, frontier, s);
        distance := distance[s := distance[t] + 1];
        frontier := frontier + [s];
      }
      assert befores[..i + 1] == befores[..i] + [s];
    }
    assert befores[..|befores|] == befores;
    FinishExpanding(before, goal, distance, t, frontier);
  }

  /** The walk back. It terminates because every entry added is a new node of a
      finite set the reverse edges never leave. */
  method Search<N(==, !new)>(before: N -> seq<N>, goal: N, ghost universe: set<N>)
    returns (distance: map<N, nat>)
    requires goal in universe && forall t, s :: t in universe && s in before(t) ==> s in universe
    ensures MapsDistances(before, goal, distance) && distance.Keys <= universe
  {
    distance := map[goal := 0];
    var frontier := [goal];
    while frontier != []
      invariant Between(before, goal, distance, frontier)
      invariant distance.Keys <= universe
      decreases universe - distance.Keys, |frontier|
    {
      StartExpanding(before, goal, distance, frontier);
      distance, frontier :=
        EnterPredecessors(before, goal, frontier[0], distance, frontier[1..], universe);
    }
    forall s, d: nat | ReachesIn(before, goal, s, d)
      ensures s in distance && distance[s] <= d
    {
      ClosedMapIsShortest(before, goal, distance, s, d);
    }
  }
}

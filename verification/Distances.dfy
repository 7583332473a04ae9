/** The breadth-first search back from the goal, and the shortest programs read off it. */
module Distances {
  import opened Wrappers
  import opened Machine
  import opened BackwardSearch

  /** The state a program ends in, if every one of its commands may run. */
  function Execute(task: Task, s: State, p: seq<Command>): (r: Option<State>)
    requires |task.start| <= |task.world.registers| && |s| == |task.start|
    ensures r.Some? ==> |r.value| == |s|
    decreases |p|
  {
    if p == [] then Some(s)
    else if !Grammatical(task.world, p[0]) then None
    else match Step(task, s, p[0])
      case Err(_) => None
      case Ok(t) => Execute(task, t, p[1..])
  }

  /** `p` is a program that takes `s` to the goal. */
  predicate Solves(task: Task, s: State, p: seq<Command>)
    requires |task.start| <= |task.world.registers| && |s| == |task.start|
  {
    Execute(task, s, p) == Some(task.goal)
  }

  ghost predicate Reaches(task: Task, s: State, d: nat)
    requires |task.start| <= |task.world.registers| && |s| == |task.start|
  {
    exists p :: |p| == d && Solves(task, s, p)
  }

  /** `d` is the length of a shortest program from `s` to the goal. */
  ghost predicate IsDistance(task: Task, s: State, d: nat)
    requires |task.start| <= |task.world.registers| && |s| == |task.start|
  {
    Reaches(task, s, d) && forall p :: Solves(task, s, p) ==> d <= |p|
  }

  /** Some program is shortest as soon as one exists. */
  lemma {:induction false} ShortestExists(task: Task, s: State, p: seq<Command>) returns (d: nat)
    requires |task.start| <= |task.world.registers| && |s| == |task.start|
    requires Solves(task, s, p)
    ensures IsDistance(task, s, d)
    decreases |p|
  {
    if q :| Solves(task, s, q) && |q| < |p| {
      d := ShortestExists(task, s, q);
    } else {
      d := |p|;
    }
  }

  /** Fewest commands from `s` to the goal; `None` when no program leads there. */
  ghost function Distance(task: Task, s: State): (r: Option<nat>)
    requires |task.start| <= |task.world.registers| && |s| == |task.start|
    ensures r.Some? ==> IsDistance(task, s, r.value)
    ensures r.None? ==> forall p :: !Solves(task, s, p)
  {
    if p :| Solves(task, s, p) then
      assert exists d: nat :: IsDistance(task, s, d) by {
        var d := ShortestExists(task, s, p);
      }
      var d: nat :| IsDistance(task, s, d);
      Some(d)
    else None
  }

  lemma DistanceIs(task: Task, s: State, d: nat)
    requires |task.start| <= |task.world.registers| && |s| == |task.start|
    requires IsDistance(task, s, d)
    ensures Distance(task, s) == Some(d)
  {
    hide Execute, Step;
    var p :| |p| == d && Solves(task, s, p);
    var e := Distance(task, s).value;
    var q :| |q| == e && Solves(task, s, q);
  }

  /** What `distances` promises: the keys are the states some program leads to the
      goal, the values the lengths of their shortest programs. */
  ghost predicate IsDistanceMap(task: Task, distance: map<State, nat>)
    requires |task.start| <= |task.world.registers|
  {
    && (forall s :: s in distance ==>
          IsState(task.world, |task.start|, s) && Distance(task, s) == Some(distance[s]))
    && (forall s :: IsState(task.world, |task.start|, s) && Distance(task, s).Some? ==> s in distance)
  }

  lemma GoalReachesItself(task: Task)
    requires ValidTask(task)
    ensures Reaches(task, task.goal, 0)
  {
  }

  lemma ReachesThrough(task: Task, s: State, c: Command, t: State, d: nat)
    requires ValidTask(task) && |s| == |task.start| == |t|
    requires Legal(task, s, c, t) && Reaches(task, t, d)
    ensures Reaches(task, s, d + 1)
  {
    var p :| |p| == d && Solves(task, t, p);
    assert ([c] + p)[1..] == p;
    assert Solves(task, s, [c] + p);
  }

  /** Every state of the given size, so that the search has something to run out of. */
  ghost function Universe(w: World, size: nat): (u: set<State>)
    ensures forall s :: s in u <==> IsState(w, size, s)
  {
    if size == 0 then {[]}
    else
      var shorter := Universe(w, size - 1);
      var u := set s, v | s in shorter && w.lo <= v <= w.hi :: s + [v];
      assert forall s :: IsState(w, size, s) ==> s == s[..size - 1] + [s[size - 1]] && s in u by {
        forall s | IsState(w, size, s) ensures s == s[..size - 1] + [s[size - 1]] && s in u {
          assert s[..size - 1] in shorter;
        }
      }
      u
  }

  /** `before` lists, for every state of the task, the states a legal command turns into it. */
  ghost predicate ReversesCommands(task: Task, before: State -> seq<State>)
    requires ValidTask(task)
  {
    forall s, t :: IsState(task.world, |task.start|, t) ==>
      (s in before(t) <==> Turns(task, s, t))
  }

  lemma FirstCommand(task: Task, s: State, d: nat) returns (c: Command, t: State)
    requires ValidTask(task) && IsState(task.world, |task.start|, s) && Reaches(task, s, d + 1)
    ensures IsState(task.world, |task.start|, t) && Legal(task, s, c, t) && Reaches(task, t, d)
  {
    var p :| |p| == d + 1 && Solves(task, s, p);
    c, t := p[0], Step(task, s, p[0]).value;
    LegalIsMove(task, s, c, t);
    assert Solves(task, t, p[1..]);
  }

  lemma {:induction false} ProgramIsWalk(task: Task, before: State -> seq<State>, s: State, d: nat)
    requires ValidTask(task) && IsState(task.world, |task.start|, s)
    requires ReversesCommands(task, before)
    requires Reaches(task, s, d)
    ensures ReachesIn(before, task.goal, s, d)
    decreases d
  {
    if d == 0 {
      var p :| |p| == 0 && Solves(task, s, p);
    } else {
      var c, t := FirstCommand(task, s, d - 1);
      ProgramIsWalk(task, before, t, d - 1);
      assert Turns(task, s, t);
      assert s in before(t);
    }
  }

  lemma {:induction false} WalkIsProgram(task: Task, before: State -> seq<State>, s: State, d: nat)
    requires ValidTask(task) && ReversesCommands(task, before)
    requires ReachesIn(before, task.goal, s, d)
    ensures IsState(task.world, |task.start|, s) && Reaches(task, s, d)
    decreases d
  {
    if d == 0 {
      GoalReachesItself(task);
    } else {
      var t :| s in before(t) && ReachesIn(before, task.goal, t, d - 1);
      WalkIsProgram(task, before, t, d - 1);
      assert Turns(task, s, t);
      var c :| Legal(task, s, c, t);
      ReachesThrough(task, s, c, t, d - 1);
    }
  }

  /** `distances`: the search back from the goal along the hand-written edges. */
  method ShortestDistances(task: Task) returns (distance: map<State, nat>)
    requires ValidTask(task)
    ensures IsDistanceMap(task, distance)
  {
    var before := t => Predecessors(task, t);
    ghost var universe := Universe(task.world, |task.start|);
    forall s, t | IsState(task.world, |task.start|, t)
      ensures s in before(t) <==> Turns(task, s, t)
    {
      PredecessorsAreExact(task, s, t);
    }
    distance := Search(before, task.goal, universe);
    TabulatedDistances(task, before, distance);
  }

  lemma TabulatedDistances(task: Task, before: State -> seq<State>, distance: map<State, nat>)
    requires ValidTask(task) && ReversesCommands(task, before)
    requires MapsDistances(before, task.goal, distance)
    ensures IsDistanceMap(task, distance)
  {
    hide Execute, Step;
    forall s | s in distance
      ensures IsState(task.world, |task.start|, s) && Distance(task, s) == Some(distance[s])
    {
      WalkIsProgram(task, before, s, distance[s]);
      forall p | Solves(task, s, p) ensures distance[s] <= |p| {
        ProgramIsWalk(task, before, s, |p|);
      }
      DistanceIs(task, s, distance[s]);
    }
    forall s | IsState(task.world, |task.start|, s) && Distance(task, s).Some? ensures s in distance {
      ProgramIsWalk(task, before, s, Distance(task, s).value);
    }
  }

  // ----- what the distances mean for single commands

  /** A command never brings the goal more than one step closer, and it cannot
      lead out of a dead end. */
  lemma CommandGainsAtMostOne(task: Task, s: State, c: Command, t: State)
    requires ValidTask(task) && IsState(task.world, |task.start|, s) && Legal(task, s, c, t)
    ensures Distance(task, t).Some? ==>
              Distance(task, s).Some? && Distance(task, s).value <= Distance(task, t).value + 1
  {
    hide Execute, Step;
    if Distance(task, t).Some? {
      ReachesThrough(task, s, c, t, Distance(task, t).value);
    }
  }

  /** From any state but the goal that can reach it, some listed move brings the
      goal exactly one command closer. */
  lemma SomeMoveGainsOne(task: Task, s: State) returns (c: Command, t: State)
    requires ValidTask(task) && IsState(task.world, |task.start|, s)
    requires Distance(task, s).Some? && s != task.goal
    ensures IsState(task.world, |task.start|, t) && (c, t) in Moves(task, s)
    ensures Distance(task, t).Some? && Distance(task, s).value == Distance(task, t).value + 1
  {
    hide Step, Moves, Execute;
    var d := Distance(task, s).value;
    GoalIsNearest(task, s);
    c, t := FirstCommand(task, s, d - 1);
    var p :| |p| == d - 1 && Solves(task, t, p);
    MovesAreComplete(task, s, t);
    CommandGainsAtMostOne(task, s, c, t);
    c :| (c, t) in Moves(task, s);
  }

  lemma GoalIsNearest(task: Task, s: State)
    requires ValidTask(task) && IsState(task.world, |task.start|, s) && Distance(task, s).Some?
    ensures Distance(task, s).value == 0 <==> s == task.goal
  {
  }

  predicate LandsAt(moves: seq<(Command, State)>, distance: map<State, nat>, d: int, i: nat)
    requires i < |moves|
  {
    moves[i].1 in distance && distance[moves[i].1] == d
  }

  /** `c` is the first of the moves from `s` that brings the goal one command closer. */
  ghost predicate IsFirstCloser(task: Task, s: State, c: Command)
    requires ValidTask(task) && |s| == |task.start|
  {
    exists i: nat :: i < |Moves(task, s)| && Moves(task, s)[i].0 == c && IsCloser(task, s, i)
                     && forall k: nat :: k < i ==> !IsCloser(task, s, k)
  }

  ghost predicate IsCloser(task: Task, s: State, i: nat)
    requires ValidTask(task) && |s| == |task.start| && i < |Moves(task, s)|
  {
    var t := Moves(task, s)[i].1;
    |t| == |s| && Distance(task, t).Some? && Distance(task, s) == Some(Distance(task, t).value + 1)
  }

  lemma MovesLeadToStates(task: Task, s: State, i: nat)
    requires ValidTask(task) && IsState(task.world, |task.start|, s) && i < |Moves(task, s)|
    ensures IsState(task.world, |task.start|, Moves(task, s)[i].1)
  {
    var (c, t) := Moves(task, s)[i];
    assert (c, t) in Moves(task, s);
    MovesAreComplete(task, s, t);
    hide Moves, Listed, Legal;
    LegalIsMove(task, s, c, t);
  }

  /** In the map, landing at `d` is being closer. */
  ghost predicate Shows(task: Task, s: State, distance: map<State, nat>, d: int)
    requires ValidTask(task) && |s| == |task.start|
  {
    forall i: nat :: i < |Moves(task, s)| ==> (LandsAt(Moves(task, s), distance, d, i) <==> IsCloser(task, s, i))
  }

  lemma LandingIsCloser(task: Task, s: State, distance: map<State, nat>, d: int)
    requires ValidTask(task) && IsState(task.world, |task.start|, s)
    requires s in distance && distance[s] == d + 1
    requires IsDistanceMap(task, distance)
    ensures Shows(task, s, distance, d)
  {
    hide Moves, MovesOf, Step, Execute, IsDistance;
    forall i: nat | i < |Moves(task, s)|
      ensures LandsAt(Moves(task, s), distance, d, i) <==> IsCloser(task, s, i)
    {
      MovesLeadToStates(task, s, i);
    }
  }

  lemma FirstLandingIsFirstCloser(task: Task, s: State, distance: map<State, nat>, d: int, i: nat)
    requires ValidTask(task) && |s| == |task.start| && Shows(task, s, distance, d)
    requires i < |Moves(task, s)| && LandsAt(Moves(task, s), distance, d, i)
    requires forall k: nat :: k < i ==> !LandsAt(Moves(task, s), distance, d, k)
    ensures IsFirstCloser(task, s, Moves(task, s)[i].0)
  {
    hide Moves, LandsAt, IsCloser;
    assert forall k: nat :: k < i ==> !IsCloser(task, s, k);
  }

  /** `next` over the moves: the first one that lands exactly at distance `d`. */
  method FirstMoveTo(moves: seq<(Command, State)>, distance: map<State, nat>, d: int) returns (c: Command, after: State)
    requires exists c, t :: (c, t) in moves && t in distance && distance[t] == d
    ensures exists i: nat :: i < |moves| && moves[i] == (c, after) && LandsAt(moves, distance, d, i)
                             && forall k: nat :: k < i ==> !LandsAt(moves, distance, d, k)
  {
    var i := 0;
    while !(moves[i].1 in distance && distance[moves[i].1] == d)
      invariant 0 <= i < |moves|
      invariant exists k :: i <= k < |moves| && moves[k].1 in distance && distance[moves[k].1] == d
      invariant forall k: nat :: k < i ==> !LandsAt(moves, distance, d, k)
      decreases |moves| - i
    {
      i := i + 1;
    }
    assert moves[i] == (moves[i].0, moves[i].1);
    return moves[i].0, moves[i].1;
  }

  lemma ExecuteAppend(task: Task, s: State, p: seq<Command>, c: Command)
    requires ValidTask(task) && |s| == |task.start|
    requires Execute(task, s, p).Some? && Grammatical(task.world, c)
    ensures Execute(task, s, p + [c]) ==
            match Step(task, Execute(task, s, p).value, c) case Ok(t) => Some(t) case Err(_) => None
    decreases |p|
  {
    if p == [] {
      assert ([] + [c])[1..] == [];
    } else {
      ExecuteAppend(task, Step(task, s, p[0]).value, p[1..], c);
      assert (p + [c])[1..] == p[1..] + [c];
    }
  }

  /** Each command of the program is the first that comes closer, where it runs. */
  ghost predicate TakesFirstCloser(task: Task, p: seq<Command>)
    requires ValidTask(task)
  {
    forall k: nat :: k < |p| ==>
      var at := Execute(task, task.start, p[..k]);
      at.Some? && IsFirstCloser(task, at.value, p[k])
  }

  lemma NothingTaken(task: Task)
    requires ValidTask(task)
    ensures TakesFirstCloser(task, [])
  {
  }

  lemma OneMoreFirstCloser(task: Task, p: seq<Command>, s: State, c: Command)
    requires ValidTask(task) && TakesFirstCloser(task, p)
    requires Execute(task, task.start, p) == Some(s) && |s| == |task.start| && IsFirstCloser(task, s, c)
    ensures TakesFirstCloser(task, p + [c])
  {
    hide Execute, IsFirstCloser;
    forall k: nat | k <= |p| ensures (p + [c])[..k] == p[..k] {
    }
    assert p[..|p|] == p;
  }

  /** The move `solve` makes from one state. */
  method FirstCloserMove(task: Task, s: State, distance: map<State, nat>) returns (c: Command, after: State)
    requires ValidTask(task) && IsState(task.world, |task.start|, s) && s != task.goal
    requires s in distance && IsDistanceMap(task, distance)
    ensures after in distance && distance[s] == distance[after] + 1
    ensures IsState(task.world, |task.start|, after) && Listed(task, c) && Legal(task, s, c, after)
    ensures IsFirstCloser(task, s, c)
  {
    hide Step, Moves, Listed, Execute, IsFirstCloser, Shows, Legal, IsDistance;
    ghost var best, target := SomeMoveGainsOne(task, s);
    var d: nat := distance[s] - 1;
    LandingIsCloser(task, s, distance, d);
    c, after := FirstMoveTo(Moves(task, s), distance, d);
    ghost var i: nat :| i < |Moves(task, s)| && Moves(task, s)[i] == (c, after)
                        && LandsAt(Moves(task, s), distance, d, i)
                        && forall k: nat :: k < i ==> !LandsAt(Moves(task, s), distance, d, k);
    FirstLandingIsFirstCloser(task, s, distance, d, i);
    hide LandsAt;
    MovesAreComplete(task, s, after);
  }

  /** `solve`: `None` exactly when no program reaches the goal; otherwise a shortest
      program, of listed commands, each the first that comes closer. */
  method Solve(task: Task) returns (result: Option<seq<Command>>)
    requires ValidTask(task)
    ensures result.None? <==> Distance(task, task.start).None?
    ensures result.Some? ==> Solves(task, task.start, result.value)
    ensures result.Some? ==> Distance(task, task.start) == Some(|result.value|)
    ensures result.Some? ==> forall c :: c in result.value ==> Listed(task, c)
    ensures result.Some? ==> TakesFirstCloser(task, result.value)
  {
    hide Step, Moves, Listed, TakesFirstCloser, IsFirstCloser;
    var distance := ShortestDistances(task);
    if task.start !in distance {
      return None;
    }
    var program: seq<Command> := [];
    NothingTaken(task);
    var state := task.start;
    GoalIsNearest(task, state);
    while state != task.goal
      invariant state in distance
      invariant Execute(task, task.start, program) == Some(state)
      invariant |program| + distance[state] == distance[task.start]
      invariant forall c :: c in program ==> Listed(task, c)
      invariant TakesFirstCloser(task, program)
      decreases distance[state]
    {
      var command, after := FirstCloserMove(task, state, distance);
      OneMoreFirstCloser(task, program, state, command);
      ExecuteAppend(task, task.start, program, command);
      program := program + [command];
      state := after;
    }
    GoalIsNearest(task, state);
    return Some(program);
  }

  // ----- the depth of tasks that allow both directions

  /** With both `add` and `sub`, and amounts that span the value range, every goal
      is at most one command per register away: the difficulty rule of the task
      generator. */
  lemma {:induction false} BothDirectionsAreShallow(task: Task, s: State, k: nat)
    requires ValidTask(task) && "add" in task.operations && "sub" in task.operations
    requires task.world.hi - task.world.lo <= task.world.maxAmount
    requires IsState(task.world, |task.start|, s)
    requires k <= |s| && s[k..] == task.goal[k..]
    ensures Distance(task, s).Some? && Distance(task, s).value <= k
    decreases k
  {
    hide Step, Execute;
    if k == 0 {
      assert s[0..] == s && task.goal[0..] == task.goal;
      GoalReachesItself(task);
    } else {
      var i := k - 1;
      var t := s[i := task.goal[i]];
      forall j | i < j < |s| ensures s[j] == task.goal[j] {
        assert s[j] == s[k..][j - k] == task.goal[k..][j - k];
      }
      assert t[i..] == task.goal[i..];
      BothDirectionsAreShallow(task, t, i);
      if s[i] == task.goal[i] {
        assert t == s;
      } else {
        var c := SetRegister(task, s, i, task.goal[i]);
        CommandGainsAtMostOne(task, s, c, t);
      }
    }
  }

  /** One command sets one register to any other value. */
  lemma SetRegister(task: Task, s: State, i: nat, value: int) returns (c: Command)
    requires ValidTask(task) && "add" in task.operations && "sub" in task.operations
    requires task.world.hi - task.world.lo <= task.world.maxAmount
    requires IsState(task.world, |task.start|, s) && i < |s|
    requires InRange(task.world, value) && value != s[i]
    ensures Legal(task, s, c, s[i := value])
  {
    hide Step, Legal;
    var gap := value - s[i];
    var op := if gap > 0 then "add" else "sub";
    var n: nat := if gap > 0 then gap else -gap;
    var t := s[i := value];
    assert t == Shifted(op, s, i, n);
    assert MovesAt(task.world, op, i, s, t);
    c := MoveIsLegal(task, op, i, s, t);
  }
}

/**
 The reward of a completion, over the reals: its parts before the final rounding.
 */
module Reward {
  import opened Wrappers
  import opened Text
  import opened Machine
  import opened Distances
  import opened Grammar
  import Strings
  import TaskText

  const SYNTAX_WEIGHT := 0.05
  const FORMAT_WEIGHT := 0.05
  const PROGRESS_WEIGHT := 0.5
  const SOLVED_WEIGHT := 0.3
  const EFFICIENCY_WEIGHT := 0.1
  const STOPPED_PROGRESS := 0.5

  // ----- the program inside a completion

  const OPEN := "<program>"
  const CLOSE := "</program>"

  /** The bodies of the `<program>` blocks, left to right, and the text around them. */
  function Blocks(text: string): (r: (seq<string>, string))
    decreases |text|
  {
    match Strings.Find(OPEN, text, 0)
    case None => ([], text)
    case Some(i) =>
      match Strings.Find(CLOSE, text, i + |OPEN|)
      case None => ([], text)
      case Some(j) =>
        var (blocks, outside) := Blocks(text[j + |CLOSE|..]);
        ([text[i + |OPEN|..j]] + blocks, text[..i] + outside)
  }

  /** Where `str.splitlines` breaks. */
  predicate IsBreak(c: char) {
    '\n' <= c <= '\r' || '\U{1C}' <= c <= '\U{1E}' || c == '\U{85}' || c == '\U{2028}' || c == '\U{2029}'
  }

  function BreakAt(s: string): (n: nat)
    ensures n <= |s|
  {
    if s == "" || IsBreak(s[0]) then 0 else 1 + BreakAt(s[1..])
  }

  function SplitLines(s: string): seq<string>
    decreases |s|
  {
    if s == "" then []
    else
      var n := BreakAt(s);
      if n == |s| then [s]
      else
        var width := if s[n] == '\r' && n + 1 < |s| && s[n + 1] == '\n' then 2 else 1;
        [s[..n]] + SplitLines(s[n + width..])
  }

  function Written(lines: seq<string>): seq<string> {
    if lines == [] then []
    else (if Strip(lines[0]) != "" then [lines[0]] else []) + Written(lines[1..])
  }

  /** The lines of a block that hold anything. */
  function ProgramLines(block: string): seq<string> {
    Written(SplitLines(block))
  }

  function CountParsed(lines: seq<string>): (n: nat)
    ensures n <= |lines|
  {
    if lines == [] then 0
    else (if ParseCommand(lines[0]).Some? then 1 else 0) + CountParsed(lines[1..])
  }

  // ----- the parts

  datatype Failure = NoBlock | EmptyProgram | Stopped(error: RunError)

  datatype Score = Score(syntax: real, format: real, progress: real, solved: real, efficiency: real,
                         executed: nat, error: Option<Failure>, distanceStart: nat, distanceEnd: Option<nat>)
  {
    /** What `round(sum(parts), 6)` is taken of. */
    function Reward(): real {
      syntax + format + progress + solved + efficiency
    }
  }

  /** Share of the way to the goal that was covered. */
  function Covered(start: nat, end: Option<nat>): real
    requires start > 0
  {
    match end
    case None => 0.0
    case Some(d) => if d >= start then 0.0 else (start - d) as real / start as real
  }

  function Progress(start: nat, end: Option<nat>, stopped: bool): real
    requires start > 0
  {
    Covered(start, end) * (if stopped then STOPPED_PROGRESS else 1.0)
  }

  function Efficiency(start: nat, executed: nat, solved: bool): real
    requires solved ==> executed > 0
  {
    if solved then start as real / executed as real else 0.0
  }

  function Minimum(a: real, b: real): real {
    if a <= b then a else b
  }

  /** What the grammar alone earns: nothing to a program that moved away from the goal,
      otherwise how much of it parses, less if it is too short for the task. */
  function Syntax(lines: seq<string>, start: nat, end: Option<nat>): real
    requires start > 0
  {
    if lines != [] && end.Some? && end.value <= start
    then CountParsed(lines) as real / |lines| as real * Minimum(1.0, |lines| as real / start as real)
    else 0.0
  }

  /** A lone block, nothing around it, every line a command. */
  predicate WellFormed(blocks: seq<string>, outside: string, lines: seq<string>) {
    |blocks| == 1 && Strip(outside) == "" && lines != [] && CountParsed(lines) == |lines|
  }

  function Grade(task: Task, blocks: seq<string>, outside: string, run: Run, start: nat, end: Option<nat>): Score
    requires start > 0 && blocks != []
  {
    var lines := ProgramLines(blocks[0]);
    var progress := Progress(start, end, run.error.Some?);
    var solved := run.error.None? && run.state == task.goal && run.executed > 0;
    Score(SYNTAX_WEIGHT * Syntax(lines, start, end),
          if WellFormed(blocks, outside, lines) && progress > 0.0 then FORMAT_WEIGHT else 0.0,
          PROGRESS_WEIGHT * progress,
          if solved then SOLVED_WEIGHT else 0.0,
          EFFICIENCY_WEIGHT * Efficiency(start, run.executed, solved),
          run.executed,
          if lines == [] then Some(EmptyProgram)
          else match run.error case Some(e) => Some(Stopped(e)) case None => None,
          start, end)
  }

  function NoProgram(start: nat): Score {
    Score(0.0, 0.0, 0.0, 0.0, 0.0, 0, Some(NoBlock), start, Some(start))
  }

  ghost predicate Gradable(task: Task)
    requires ValidTask(task)
  {
    Distance(task, task.start).Some? && task.start != task.goal
  }

  /** There are tasks to grade: one addition away from the goal, for one. */
  lemma SomeTaskIsGradable() returns (task: Task)
    ensures ValidTask(task) && task.world.maxAmount == 9 && Gradable(task)
    ensures Distance(task, task.start) == Some(1) && task.limit == 1
  {
    task := Task(World("AB", 0, 9, 9), [0, 0], [1, 0], ["add"], 1);
    assert OPERATIONS[0] == "add" && "add" in task.operations;
    assert task.goal == Shifted("add", task.start, 0, 1);
    assert MovesAt(task.world, "add", 0, task.start, task.goal);
    var c := MoveIsLegal(task, "add", 0, task.start, task.goal);
    GoalReachesItself(task);
    ReachesThrough(task, task.start, c, task.goal, 0);
    hide Execute, Step;
    GoalIsNearest(task, task.start);
  }

  /** The run of the first block, for a completion that has one. */
  function Outcome(task: Task, completion: string): Run
    requires ValidTask(task) && Blocks(completion).0 != []
  {
    RunFrom(task, task.start, ProgramLines(Blocks(completion).0[0]), 0)
  }

  lemma OutcomeIsState(task: Task, completion: string)
    requires ValidTask(task) && task.world.maxAmount == 9 && Blocks(completion).0 != []
    ensures IsState(task.world, |task.start|, Outcome(task, completion).state)
  {
    var p := RunsAreExecutions(task, task.start, ProgramLines(Blocks(completion).0[0]), 0);
  }

  /** `score`, in terms of the true distances. */
  ghost function TrueScore(task: Task, completion: string): Score
    requires ValidTask(task) && task.world.maxAmount == 9 && Gradable(task)
  {
    GoalIsNearest(task, task.start);
    var start := Distance(task, task.start).value;
    var (blocks, outside) := Blocks(completion);
    if blocks == [] then NoProgram(start)
    else
      OutcomeIsState(task, completion);
      var run := Outcome(task, completion);
      Grade(task, blocks, outside, run, start, Distance(task, run.state))
  }

  /** `score` of a prompt: refused unless the prompt holds a task whose goal can be
      reached from a different start. */
  method ScoreCompletion(prompt: string, completion: string) returns (r: Result<Score, string>)
    ensures r.Ok? <==> TaskText.Parse(prompt).Ok?
                       && (TaskText.ParsedTasksAreValid(prompt); Gradable(TaskText.Parse(prompt).value))
    ensures r.Ok? ==> (TaskText.ParsedTasksAreValid(prompt);
                       r.value == TrueScore(TaskText.Parse(prompt).value, completion))
  {
    TaskText.ParsedTasksAreValid(prompt);
    var parsed := TaskText.Parse(prompt);
    if parsed.Err? {
      return Err("not a register-machine task");
    }
    var task := parsed.value;
    var distance := ShortestDistances(task);
    if task.start in distance {
      GoalIsNearest(task, task.start);
    }
    if task.start !in distance || distance[task.start] == 0 {
      return Err("the goal must be reachable from a different start");
    }
    var start := distance[task.start];
    var (blocks, outside) := Blocks(completion);
    if blocks == [] {
      return Ok(NoProgram(start));
    }
    OutcomeIsState(task, completion);
    var run := RunProgram(task, ProgramLines(blocks[0]));
    var end := if run.state in distance then Some(distance[run.state]) else None;
    return Ok(Grade(task, blocks, outside, run, start, end));
  }

  // ----- bounds of the parts

  lemma Ratio(a: nat, b: nat)
    requires b > 0 && a <= b
    ensures 0.0 <= a as real / b as real <= 1.0
    ensures a as real / b as real == 1.0 <==> a == b
    ensures a as real / b as real == 0.0 <==> a == 0
  {
  }

  lemma RatioAboveOne(a: nat, b: nat)
    requires b > 0 && a >= b
    ensures a as real / b as real >= 1.0
  {
  }

  lemma Product(x: real, y: real)
    requires 0.0 <= x <= 1.0 && 0.0 <= y <= 1.0
    ensures 0.0 <= x * y <= 1.0
    ensures x * y == 1.0 <==> x == 1.0 && y == 1.0
  {
    if y < 1.0 && x > 0.0 {
      assert x * y < x * 1.0;
    }
  }

  lemma SyntaxBounds(lines: seq<string>, start: nat, end: Option<nat>)
    requires start > 0
    ensures 0.0 <= Syntax(lines, start, end) <= 1.0
    ensures Syntax(lines, start, end) == 1.0 <==>
            && lines != [] && end.Some? && end.value <= start
            && CountParsed(lines) == |lines| && start <= |lines|
  {
    hide CountParsed;
    if lines != [] {
      var share := CountParsed(lines) as real / |lines| as real;
      Ratio(CountParsed(lines), |lines|);
      if |lines| <= start {
        Ratio(|lines|, start);
      } else {
        RatioAboveOne(|lines|, start);
      }
      Product(share, Minimum(1.0, |lines| as real / start as real));
    }
  }

  lemma CoveredBounds(start: nat, end: Option<nat>)
    requires start > 0
    ensures 0.0 <= Covered(start, end) <= 1.0
    ensures Covered(start, end) == 1.0 <==> end == Some(0)
    ensures Covered(start, end) > 0.0 <==> end.Some? && end.value < start
  {
  }

  /** Running `p` brings the goal at most `|p|` commands closer. */
  lemma {:induction false} ProgramGainsAtMostItsLength(task: Task, s: State, p: seq<Command>, t: State)
    requires ValidTask(task) && IsState(task.world, |task.start|, s)
    requires Execute(task, s, p) == Some(t) && Distance(task, t).Some?
    ensures Distance(task, s).Some? && Distance(task, s).value <= Distance(task, t).value + |p|
    decreases |p|
  {
    hide Step;
    if p != [] {
      var m := Step(task, s, p[0]).value;
      assert Legal(task, s, p[0], m);
      LegalIsMove(task, s, p[0], m);
      ProgramGainsAtMostItsLength(task, m, p[1..], t);
      CommandGainsAtMostOne(task, s, p[0], m);
    }
  }

  /** The facts about a run the bounds rest on: it never overtakes the distance,
      and an error-free run on the goal used at least that many commands. */
  ghost predicate IsSoundRun(task: Task, lines: seq<string>, run: Run, p: seq<Command>)
    requires ValidTask(task)
  {
    && IsState(task.world, |task.start|, run.state)
    && Execute(task, task.start, p) == Some(run.state)
    && run.executed == |p| <= |lines| && |p| <= task.limit
    && Spelled(lines[..|p|], p)
    && (run.error.None? <==> |p| == |lines|)
  }

  lemma EndsAndDistances(task: Task, p: seq<Command>, t: State)
    requires ValidTask(task) && Gradable(task)
    requires IsState(task.world, |task.start|, t) && Execute(task, task.start, p) == Some(t)
    ensures Distance(task, task.start).value > 0
    ensures Distance(task, t) == Some(0) <==> t == task.goal
    ensures Distance(task, t).Some? ==> Distance(task, task.start).value <= Distance(task, t).value + |p|
  {
    hide Step, Execute;
    GoalIsNearest(task, task.start);
    if Distance(task, t).Some? {
      ProgramGainsAtMostItsLength(task, task.start, p, t);
      GoalIsNearest(task, t);
    }
    if t == task.goal {
      GoalReachesItself(task);
      DistanceIs(task, t, 0);
    }
  }

  lemma OutcomeIsSound(task: Task, completion: string) returns (p: seq<Command>)
    requires ValidTask(task) && task.world.maxAmount == 9 && Blocks(completion).0 != []
    ensures IsSoundRun(task, ProgramLines(Blocks(completion).0[0]), Outcome(task, completion), p)
  {
    hide RunFrom, Step, Execute;
    p := RunsAreExecutions(task, task.start, ProgramLines(Blocks(completion).0[0]), 0);
  }

  /** What the run and the distances owe each other, as far as the grade needs it. */
  predicate Consistent(task: Task, lines: seq<string>, run: Run, start: nat, end: Option<nat>) {
    && start > 0 && run.executed <= |lines|
    && (end == Some(0) <==> run.state == task.goal)
    && (end.Some? ==> start <= end.value + run.executed)
  }

  predicate IsSolved(task: Task, run: Run) {
    run.error.None? && run.state == task.goal && run.executed > 0
  }

  lemma GradeBounds(task: Task, blocks: seq<string>, outside: string, run: Run, start: nat, end: Option<nat>)
    requires blocks != [] && Consistent(task, ProgramLines(blocks[0]), run, start, end)
    ensures var g := Grade(task, blocks, outside, run, start, end);
            && 0.0 <= g.Reward() <= 1.0
            && (g.Reward() == 1.0 <==>
                WellFormed(blocks, outside, ProgramLines(blocks[0])) && IsSolved(task, run) && run.executed == start)
            && (IsSolved(task, run) ==> g.Reward() >= 0.8)
            && (!IsSolved(task, run) ==> g.Reward() <= 0.6)
  {
    hide ProgramLines, CountParsed, Syntax, Covered, Strip;
    var lines := ProgramLines(blocks[0]);
    SyntaxBounds(lines, start, end);
    CoveredBounds(start, end);
    if IsSolved(task, run) {
      Ratio(start, run.executed);
    }
  }

  /** `p` is a shortest solution, and the completion is nothing but one block that
      spells it. */
  ghost predicate IsPerfect(task: Task, completion: string, p: seq<Command>)
    requires ValidTask(task)
  {
    var (blocks, outside) := Blocks(completion);
    && |blocks| == 1 && Strip(outside) == ""
    && Spelled(ProgramLines(blocks[0]), p)
    && Solves(task, task.start, p) && |p| <= task.limit
    && Distance(task, task.start) == Some(|p|)
  }

  /** The reward of every completion lies between 0 and 1. */
  lemma RewardIsBounded(task: Task, completion: string)
    requires ValidTask(task) && task.world.maxAmount == 9 && Gradable(task)
    ensures 0.0 <= TrueScore(task, completion).Reward() <= 1.0
  {
    hide Blocks, RunFrom, ProgramLines, Execute, Step;
    if Blocks(completion).0 != [] {
      var p := OutcomeIsSound(task, completion);
      var run := Outcome(task, completion);
      EndsAndDistances(task, p, run.state);
      GradeBounds(task, Blocks(completion).0, Blocks(completion).1, run,
                  Distance(task, task.start).value, Distance(task, run.state));
    }
  }

  lemma {:induction false} SpelledLinesCount(lines: seq<string>, p: seq<Command>)
    requires Spelled(lines, p)
    ensures CountParsed(lines) == |lines|
  {
    hide ParseCommand;
    if lines != [] {
      SpelledLinesCount(lines[1..], p[1..]);
    }
  }

  /** And it is 1 for exactly the completions that are one block, spelling a
      shortest program that fits the limit. */
  lemma RewardIsOneIffPerfect(task: Task, completion: string)
    requires ValidTask(task) && task.world.maxAmount == 9 && Gradable(task)
    ensures TrueScore(task, completion).Reward() == 1.0 <==> exists p :: IsPerfect(task, completion, p)
  {
    hide Blocks, RunFrom, ProgramLines, Execute, Step, CountParsed, ParseCommand;
    if Blocks(completion).0 != [] {
      var p := OutcomeIsSound(task, completion);
      var (blocks, outside) := Blocks(completion);
      var lines, run := ProgramLines(blocks[0]), Outcome(task, completion);
      EndsAndDistances(task, p, run.state);
      GradeBounds(task, blocks, outside, run, Distance(task, task.start).value, Distance(task, run.state));
      if TrueScore(task, completion).Reward() == 1.0 {
        assert lines[..|p|] == lines;
        assert IsPerfect(task, completion, p);
      }
      if q :| IsPerfect(task, completion, q) {
        SpelledLinesCount(lines, q);
        SpelledProgramRuns(task, task.start, lines, q, 0);
      }
    }
  }

  /** A program of which `k` commands ran earns at most `k` parts in `d_start` of the
      progress, and half of that when it stopped on an error. */
  lemma ProgressIsEarnedByCommands(task: Task, completion: string)
    requires ValidTask(task) && task.world.maxAmount == 9 && Gradable(task)
    ensures var s := TrueScore(task, completion);
            && s.distanceStart > 0
            && s.progress <= PROGRESS_WEIGHT * (s.executed as real / s.distanceStart as real)
            && (s.error.Some? && s.error.value.Stopped? ==>
                s.progress <= STOPPED_PROGRESS * PROGRESS_WEIGHT * (s.executed as real / s.distanceStart as real))
  {
    hide Blocks, RunFrom, ProgramLines, Execute, Step, Syntax, CountParsed, Progress;
    GoalIsNearest(task, task.start);
    var start := Distance(task, task.start).value;
    if Blocks(completion).0 != [] {
      var p := OutcomeIsSound(task, completion);
      var run := Outcome(task, completion);
      EndsAndDistances(task, p, run.state);
      ProgressBound(start, Distance(task, run.state), run);
    } else {
      assert TrueScore(task, completion) == NoProgram(start);
      assert 0 as real / start as real == 0.0;
    }
  }

  lemma ProgressBound(start: nat, end: Option<nat>, run: Run)
    requires start > 0 && (end.Some? ==> start <= end.value + run.executed)
    ensures var share, earned := run.executed as real / start as real, Progress(start, end, run.error.Some?);
            && 0.0 <= PROGRESS_WEIGHT * earned <= PROGRESS_WEIGHT * share
            && (run.error.Some? ==> PROGRESS_WEIGHT * earned <= STOPPED_PROGRESS * PROGRESS_WEIGHT * share)
  {
    CoveredByCommands(start, end, run.executed);
  }

  lemma CoveredByCommands(start: nat, end: Option<nat>, executed: nat)
    requires start > 0 && (end.Some? ==> start <= end.value + executed)
    ensures 0.0 <= Covered(start, end) <= executed as real / start as real
  {
  }

  /** A program that ends farther from the goal than it started, or in a dead end,
      earns nothing at all, however well it is written. */
  lemma MovingAwayEarnsNothing(task: Task, completion: string)
    requires ValidTask(task) && task.world.maxAmount == 9 && Gradable(task)
    requires Blocks(completion).0 != []
    requires (OutcomeIsState(task, completion);
              var end := Distance(task, Outcome(task, completion).state);
              end.None? || end.value > Distance(task, task.start).value)
    ensures TrueScore(task, completion).Reward() == 0.0
  {
    hide Blocks, RunFrom, ProgramLines, Execute, Step;
    var p := OutcomeIsSound(task, completion);
    EndsAndDistances(task, p, Outcome(task, completion).state);
  }

  /** Any program that solves the task outranks any that does not. */
  lemma SolvingOutranksEverythingElse(task: Task, solving: string, other: string)
    requires ValidTask(task) && task.world.maxAmount == 9 && Gradable(task)
    requires Blocks(solving).0 != [] && IsSolved(task, Outcome(task, solving))
    requires Blocks(other).0 == [] || !IsSolved(task, Outcome(task, other))
    ensures TrueScore(task, solving).Reward() > TrueScore(task, other).Reward()
  {
    hide Blocks, RunFrom, ProgramLines, Execute, Step;
    SolvedFloor(task, solving);
    if Blocks(other).0 != [] {
      SolvedFloor(task, other);
    }
  }

  lemma SolvedFloor(task: Task, completion: string)
    requires ValidTask(task) && task.world.maxAmount == 9 && Gradable(task)
    requires Blocks(completion).0 != []
    ensures IsSolved(task, Outcome(task, completion)) ==> TrueScore(task, completion).Reward() >= 0.8
    ensures !IsSolved(task, Outcome(task, completion)) ==> TrueScore(task, completion).Reward() <= 0.6
  {
    hide Blocks, RunFrom, ProgramLines, Execute, Step;
    var p := OutcomeIsSound(task, completion);
    var run := Outcome(task, completion);
    EndsAndDistances(task, p, run.state);
    GradeBounds(task, Blocks(completion).0, Blocks(completion).1, run,
                Distance(task, task.start).value, Distance(task, run.state));
  }
}

/**
 What a grade means, part by part: in terms of the true distances along the run, of the
 lines that are commands, and of where the blocks stand in the completion.
 */
module Grading {
  import opened Wrappers
  import opened Sequences
  import opened Text
  import opened Machine
  import opened Distances
  import opened Grammar
  import opened Reward
  import opened Tagged

  // ----- progress is credited command by command

  /** How much closer to the goal one command brought the machine; less than nothing for a
      step away. */
  ghost function Credit(task: Task, s: State, t: State): int
    requires |task.start| <= |task.world.registers| && |s| == |task.start| && |t| == |task.start|
  {
    Nearer(Distance(task, s), Distance(task, t))
  }

  function Nearer(before: Option<nat>, after: Option<nat>): int {
    if before.Some? && after.Some? then before.value - after.value else 0
  }

  /** The credits of the commands of `p`, one after the other. */
  ghost function Credits(task: Task, s: State, p: seq<Command>): int
    requires ValidTask(task) && |s| == |task.start| && Execute(task, s, p).Some?
    decreases |p|
  {
    if p == [] then 0
    else
      var t := Step(task, s, p[0]).value;
      Credit(task, s, t) + Credits(task, t, p[1..])
  }

  /** On the way to a state that can reach the goal, the credits add up to the difference. */
  lemma {:induction false} CreditsAddUp(task: Task, s: State, p: seq<Command>, t: State)
    requires ValidTask(task) && IsState(task.world, |task.start|, s)
    requires Execute(task, s, p) == Some(t) && Distance(task, t).Some?
    ensures Distance(task, s).Some? && Credits(task, s, p) == Distance(task, s).value - Distance(task, t).value
    decreases |p|
  {
    hide Step;
    if p != [] {
      var m := Step(task, s, p[0]).value;
      assert Legal(task, s, p[0], m);
      LegalIsMove(task, s, p[0], m);
      CreditsAddUp(task, m, p[1..], t);
      CommandGainsAtMostOne(task, s, p[0], m);
    }
  }

  /** `p` is the program that ran: what the first lines say, as far as the run came. */
  ghost predicate Ran(task: Task, completion: string, p: seq<Command>)
    requires ValidTask(task) && Blocks(completion).0 != []
  {
    var (lines, run) := (ProgramLines(Blocks(completion).0[0]), Outcome(task, completion));
    && |p| == run.executed <= |lines| && Spelled(lines[..|p|], p)
    && Execute(task, task.start, p) == Some(run.state)
  }

  lemma SomeProgramRan(task: Task, completion: string) returns (p: seq<Command>)
    requires ValidTask(task) && task.world.maxAmount == 9 && Blocks(completion).0 != []
    ensures Ran(task, completion, p)
  {
    hide Blocks, ProgramLines, RunFrom, Execute, Step, Spelled;
    p := OutcomeIsSound(task, completion);
  }

  lemma CoveredTimesStart(start: nat, end: nat)
    requires start > 0 && end <= start
    ensures Covered(start, Some(end)) * start as real == (start - end) as real
  {
  }

  lemma ProgressTimesStart(start: nat, end: Option<nat>, stopped: bool)
    requires start > 0
    ensures var progress := PROGRESS_WEIGHT * Progress(start, end, stopped);
            if end.None? || end.value > start then progress == 0.0
            else progress * start as real == (if stopped then 0.25 else 0.5) * (start - end.value) as real
  {
    if end.Some? && end.value <= start {
      CoveredTimesStart(start, end.value);
      var covered, length := Covered(start, end), start as real;
      assert 0.5 * covered * length == 0.5 * (covered * length);
      assert 0.25 * covered * length == 0.25 * (covered * length);
    }
  }

  lemma GradeOf(task: Task, completion: string)
    requires ValidTask(task) && task.world.maxAmount == 9 && Gradable(task) && Blocks(completion).0 != []
    ensures |Outcome(task, completion).state| == |task.start|
    ensures var (start, end) := (Distance(task, task.start), Distance(task, Outcome(task, completion).state));
            && start.Some? && start.value > 0
            && TrueScore(task, completion) ==
               Grade(task, Blocks(completion).0, Blocks(completion).1, Outcome(task, completion), start.value, end)
  {
    GoalIsNearest(task, task.start);
    OutcomeIsState(task, completion);
    hide Blocks, Outcome, Grade, Execute, Step;
  }

  lemma GradeHasProgress(task: Task, blocks: seq<string>, outside: string, run: Run, start: nat, end: Option<nat>)
    requires start > 0 && blocks != []
    ensures var g := Grade(task, blocks, outside, run, start, end);
            && g.progress == PROGRESS_WEIGHT * Progress(start, end, run.error.Some?)
            && g.distanceStart == start && g.distanceEnd == end && g.executed == run.executed
  {
    hide ProgramLines, Syntax, CountParsed, Progress, WellFormed, Efficiency;
  }

  lemma CreditsOf(task: Task, completion: string, p: seq<Command>)
    requires ValidTask(task) && task.world.maxAmount == 9 && Blocks(completion).0 != [] && Ran(task, completion, p)
    ensures |Outcome(task, completion).state| == |task.start|
    ensures var end := Distance(task, Outcome(task, completion).state);
            end.Some? ==> Distance(task, task.start).Some?
                          && Credits(task, task.start, p) == Distance(task, task.start).value - end.value
  {
    OutcomeIsState(task, completion);
    hide Blocks, ProgramLines, Outcome, Execute, Step, Credits;
    if Distance(task, Outcome(task, completion).state).Some? {
      CreditsAddUp(task, task.start, p, Outcome(task, completion).state);
    }
  }

  /** Each command that ran is credited with how much closer it brought the goal, half as
      much if the program stopped on an error; in parts of the distance at the start they add
      up to the progress. A program that ends farther away, or in a dead end, made none. */
  lemma ProgressIsCredited(task: Task, completion: string, p: seq<Command>)
    requires ValidTask(task) && task.world.maxAmount == 9 && Gradable(task)
    requires Blocks(completion).0 != [] && Ran(task, completion, p)
    ensures var s := TrueScore(task, completion);
            var credits := Credits(task, task.start, p) as real;
            if s.distanceEnd.None? || s.distanceEnd.value > s.distanceStart then s.progress == 0.0
            else s.progress * s.distanceStart as real ==
                 if Outcome(task, completion).error.None? then 0.5 * credits else 0.25 * credits
  {
    hide Blocks, Outcome, Grade, TrueScore, Credits, Ran, Gradable, Progress, Execute, Step, IsDistance;
    GradeOf(task, completion);
    var run := Outcome(task, completion);
    var start, end := Distance(task, task.start).value, Distance(task, run.state);
    GradeHasProgress(task, Blocks(completion).0, Blocks(completion).1, run, start, end);
    ProgressTimesStart(start, end, run.error.Some?);
    CreditsOf(task, completion, p);
  }

  // ----- the other parts

  /** How many of the lines are commands. */
  ghost function CommandLines(lines: seq<string>): set<nat> {
    set i: nat | i < |lines| && ParseCommand(lines[i]).Some?
  }

  /** The same one line further on. */
  ghost function Later(xs: set<nat>): set<nat> {
    set x: nat | x in xs :: x + 1
  }

  lemma {:induction false} AsManyLater(xs: set<nat>)
    ensures |Later(xs)| == |xs|
    decreases |xs|
  {
    if x: nat :| x in xs {
      AsManyLater(xs - {x});
      forall y: nat ensures y in Later(xs) <==> y in Later(xs - {x}) || y == x + 1 {
        assert y > 0 && y - 1 in xs ==> y - 1 in xs - {x} || y == x + 1;
      }
      assert Later(xs) == Later(xs - {x}) + {x + 1};
      assert x + 1 !in Later(xs - {x});
    } else {
      assert Later(xs) == {};
    }
  }

  lemma CommandLinesUnfold(lines: seq<string>)
    requires lines != []
    ensures CommandLines(lines) ==
            (if ParseCommand(lines[0]).Some? then {0} else {}) + Later(CommandLines(lines[1..]))
  {
    hide ParseCommand;
    var first: set<nat> := if ParseCommand(lines[0]).Some? then {0} else {};
    forall i: nat ensures i in CommandLines(lines) <==> i in first || i in Later(CommandLines(lines[1..])) {
      if 0 < i < |lines| {
        assert lines[1..][i - 1] == lines[i];
        assert i in CommandLines(lines) <==> i - 1 in CommandLines(lines[1..]);
        assert i - 1 in CommandLines(lines[1..]) ==> i in Later(CommandLines(lines[1..]));
      }
    }
  }

  lemma {:induction false} ParsedAreCounted(lines: seq<string>)
    ensures |CommandLines(lines)| == CountParsed(lines)
  {
    if lines == [] {
      assert CommandLines(lines) == {};
    } else {
      ParsedAreCounted(lines[1..]);
      CommandLinesUnfold(lines);
      AsManyLater(CommandLines(lines[1..]));
      hide ParseCommand, CommandLines;
    }
  }

  lemma {:induction false} AllParse(lines: seq<string>)
    ensures CountParsed(lines) == |lines| <==> forall i :: 0 <= i < |lines| ==> ParseCommand(lines[i]).Some?
  {
    hide ParseCommand;
    if lines != [] {
      AllParse(lines[1..]);
      assert lines == [lines[0]] + lines[1..];
    }
  }

  lemma Shares(parsed: real, n: real, m: real)
    requires n > 0.0 && m > 0.0
    ensures n >= m ==> parsed / n * Minimum(1.0, n / m) * n == parsed
    ensures n <= m ==> parsed / n * Minimum(1.0, n / m) * m == parsed
  {
    assert parsed / n * n == parsed;
    if n <= m {
      assert n / m <= 1.0;
      assert parsed / n * (n / m) * m == parsed / n * (n / m * m) == parsed / n * n;
    } else {
      assert n / m > 1.0;
    }
  }

  lemma SyntaxTimesLength(lines: seq<string>, start: nat, end: Option<nat>)
    requires start > 0 && lines != [] && end.Some? && end.value <= start
    ensures 0.05 * Syntax(lines, start, end) * Longer(|lines|, start) as real == 0.05 * CountParsed(lines) as real
  {
    hide CountParsed;
    Shares(CountParsed(lines) as real, |lines| as real, start as real);
    var share, longer := Syntax(lines, start, end), Longer(|lines|, start) as real;
    assert 0.05 * share * longer == 0.05 * (share * longer);
  }

  /** Syntax is the share of lines that are commands, scaled down for fewer lines than
      commands are needed and forfeited by moving away; the format point takes a lone, clean
      block and some progress; solved and efficiency take a run without error onto the goal. */
  ghost predicate HasParts(s: Score, blocks: seq<string>, outside: string, run: Run, solved: bool)
    requires blocks != []
  {
    var lines := ProgramLines(blocks[0]);
    && (if lines == [] || s.distanceEnd.None? || s.distanceEnd.value > s.distanceStart then s.syntax == 0.0
        else s.syntax * Longer(|lines|, s.distanceStart) as real == 0.05 * |CommandLines(lines)| as real)
    && s.format == (if |blocks| == 1 && AllSpace(outside) && lines != []
                       && (forall i :: 0 <= i < |lines| ==> ParseCommand(lines[i]).Some?) && s.progress > 0.0
                    then 0.05 else 0.0)
    && s.solved == (if solved then 0.3 else 0.0)
    && (if solved then s.efficiency * run.executed as real == 0.1 * s.distanceStart as real else s.efficiency == 0.0)
    && s.executed == run.executed
    && s.error == (if lines == [] then Some(EmptyProgram)
                   else if run.error.Some? then Some(Stopped(run.error.value)) else None)
  }

  function Longer(a: nat, b: nat): nat {
    if a >= b then a else b
  }

  lemma FormatPart(blocks: seq<string>, outside: string)
    requires blocks != []
    ensures var lines := ProgramLines(blocks[0]);
            WellFormed(blocks, outside, lines) <==>
            && |blocks| == 1 && AllSpace(outside) && lines != []
            && forall i :: 0 <= i < |lines| ==> ParseCommand(lines[i]).Some?
  {
    AllParse(ProgramLines(blocks[0]));
    StripOfSpace(outside);
    hide ProgramLines, ParseCommand, CountParsed, Strip, AllSpace;
  }

  lemma SyntaxPart(lines: seq<string>, start: nat, end: Option<nat>)
    requires start > 0
    ensures var part := SYNTAX_WEIGHT * Syntax(lines, start, end);
            if lines == [] || end.None? || end.value > start then part == 0.0
            else part * Longer(|lines|, start) as real == 0.05 * |CommandLines(lines)| as real
  {
    hide ParseCommand, CountParsed, CommandLines, Longer;
    ParsedAreCounted(lines);
    if lines != [] && end.Some? && end.value <= start {
      SyntaxTimesLength(lines, start, end);
    }
  }

  lemma EfficiencyPart(start: nat, executed: nat, solved: bool)
    requires solved ==> executed > 0
    ensures var part := EFFICIENCY_WEIGHT * Efficiency(start, executed, solved);
            if solved then part * executed as real == 0.1 * start as real else part == 0.0
  {
    if solved {
      EfficiencyTimesLength(start, executed);
    }
  }

  lemma GradeHasParts(task: Task, blocks: seq<string>, outside: string, run: Run, start: nat, end: Option<nat>)
    requires start > 0 && blocks != []
    ensures HasParts(Grade(task, blocks, outside, run, start, end), blocks, outside, run, IsSolved(task, run))
  {
    hide ProgramLines, ParseCommand, CommandLines, Longer, Syntax, Efficiency, WellFormed, AllSpace, Progress;
    FormatPart(blocks, outside);
    SyntaxPart(ProgramLines(blocks[0]), start, end);
    EfficiencyPart(start, run.executed, IsSolved(task, run));
  }

  lemma PartsOfTheScore(task: Task, completion: string)
    requires ValidTask(task) && task.world.maxAmount == 9 && Gradable(task)
    requires Blocks(completion).0 != []
    ensures var run := Outcome(task, completion);
            HasParts(TrueScore(task, completion), Blocks(completion).0, Blocks(completion).1, run, IsSolved(task, run))
  {
    hide Blocks, Outcome, Grade, TrueScore, Gradable, HasParts, IsSolved, Execute, Step, IsDistance;
    GradeOf(task, completion);
    var run := Outcome(task, completion);
    GradeHasParts(task, Blocks(completion).0, Blocks(completion).1, run,
                  Distance(task, task.start).value, Distance(task, run.state));
  }

  lemma EfficiencyTimesLength(start: nat, executed: nat)
    requires executed > 0
    ensures 0.1 * (start as real / executed as real) * executed as real == 0.1 * start as real
  {
    assert start as real / executed as real * executed as real == start as real;
  }

  lemma StripOfSpace(s: string)
    ensures Strip(s) == "" <==> AllSpace(s)
  {
    var before, after := StripSplits(s);
    if Strip(s) == "" {
      assert s == before + after;
    }
    if AllSpace(s) {
      StripIs(s, s, "", "");
    }
  }

  /** Without a block nothing else is looked at. */
  lemma NoBlockEarnsNothing(task: Task, completion: string)
    requires ValidTask(task) && task.world.maxAmount == 9 && Gradable(task) && Blocks(completion).0 == []
    ensures var s := TrueScore(task, completion);
            && s.Reward() == 0.0 && s.executed == 0 && s.error == Some(NoBlock)
            && Some(s.distanceStart) == s.distanceEnd == Distance(task, task.start)
  {
    GoalIsNearest(task, task.start);
    hide Blocks, Execute, Step;
  }

  // ----- where the blocks stand

  const PROGRAM := Tags(OPEN, CLOSE)

  /** The blocks of a completion are cut out of it from the left, and what is outside is all
      the rest. */
  lemma {:induction false} BlocksAreCutOut(text: string) returns (outer: seq<string>)
    ensures IsCutInto(PROGRAM, text, outer, Blocks(text).0) && Flatten(outer) == Blocks(text).1
    decreases |text|
  {
    hide Strings.StandsAt;
    assert text[0..] == text;
    var open := Strings.Find(OPEN, text, 0);
    if open.Some? && Strings.Find(CLOSE, text, open.value + |OPEN|).Some? {
      var i := open.value;
      var j := Strings.Find(CLOSE, text, i + |OPEN|).value;
      var rest := text[j + |CLOSE|..];
      var more := BlocksAreCutOut(rest);
      outer := [text[0..i]] + more;
      BlocksUnfolded(text, i, j);
      hide Blocks;
      CutOneMore(PROGRAM, text, 0, i, j, more, Blocks(rest).0);
      assert text[0..i] == text[..i];
    } else {
      outer := [text];
      NotCut(PROGRAM, text, 0);
    }
  }

  lemma BlocksUnfolded(text: string, i: nat, j: nat)
    requires Strings.Find(OPEN, text, 0) == Some(i) && Strings.Find(CLOSE, text, i + |OPEN|) == Some(j)
    ensures var (blocks, outside) := Blocks(text[j + |CLOSE|..]);
            Blocks(text) == ([text[i + |OPEN|..j]] + blocks, text[..i] + outside)
  {
    hide Strings.Find, Strings.StandsAt;
  }

  // ----- lines

  ghost predicate HasNoBreak(line: string) {
    forall i :: 0 <= i < |line| ==> !IsBreak(line[i])
  }

  lemma {:induction false} BreakIsAt(line: string, rest: string)
    requires HasNoBreak(line) && (rest == "" || IsBreak(rest[0]))
    ensures BreakAt(line + rest) == |line|
  {
    if line != "" {
      BreakIsAt(line[1..], rest);
      assert (line + rest)[1..] == line[1..] + rest;
    } else {
      assert line + rest == rest;
    }
  }

  lemma OneBreak(line: string, b: char, rest: string)
    requires HasNoBreak(line) && IsBreak(b) && !(b == '\r' && rest != "" && rest[0] == '\n')
    ensures SplitLines(line + ([b] + rest)) == [line] + SplitLines(rest)
  {
    BreakIsAt(line, [b] + rest);
    hide IsBreak, BreakAt;
    var n, text := |line|, line + ([b] + rest);
    assert text[..n] == line && text[n] == b && text[n + 1..] == rest;
    assert n + 1 < |text| ==> text[n + 1] == rest[0];
  }

  lemma DoubleBreak(line: string, rest: string)
    requires HasNoBreak(line)
    ensures SplitLines(line + ("\r\n" + rest)) == [line] + SplitLines(rest)
  {
    CarriageReturnBreaks(rest);
    BreakIsAt(line, "\r\n" + rest);
    hide IsBreak, BreakAt;
    var n, text := |line|, line + ("\r\n" + rest);
    assert text[..n] == line && text[n] == '\r' && text[n + 1] == '\n' && text[n + 2..] == rest;
  }

  /** Lines end at every line break and nowhere else; a carriage return and the line feed
      behind it are one, and what comes behind the last break is a line if it is anything. */
  lemma LinesEndAtBreaks(line: string, b: char, rest: string)
    requires HasNoBreak(line) && IsBreak(b)
    ensures SplitLines("") == [] && (line != "" ==> SplitLines(line) == [line])
    ensures !(b == '\r' && rest != "" && rest[0] == '\n') ==> SplitLines(line + ([b] + rest)) == [line] + SplitLines(rest)
    ensures SplitLines(line + ("\r\n" + rest)) == [line] + SplitLines(rest)
  {
    BreakIsAt(line, "");
    assert line + "" == line;
    DoubleBreak(line, rest);
    if !(b == '\r' && rest != "" && rest[0] == '\n') {
      OneBreak(line, b, rest);
    }
    hide IsBreak, BreakAt;
  }

  lemma CarriageReturnBreaks(rest: string)
    ensures IsBreak(("\r\n" + rest)[0])
  {
  }

  lemma {:induction false} WrittenAppends(lines: seq<string>, more: seq<string>)
    ensures Written(lines + more) == Written(lines) + Written(more)
  {
    hide Strip;
    if lines == [] {
      assert [] + more == more;
    } else {
      WrittenAppends(lines[1..], more);
      assert (lines + more)[1..] == lines[1..] + more;
    }
  }

  lemma OneLineIsWritten(line: string)
    ensures Written([line]) == if AllSpace(line) then [] else [line]
  {
    StripOfSpace(line);
    hide Strip, AllSpace;
    assert [line][1..] == [];
  }

  /** Only lines that hold something count, in order. */
  lemma BlankLinesDoNotCount(lines: seq<string>, line: string, more: seq<string>)
    ensures Written(lines + [line] + more) == Written(lines) + (if AllSpace(line) then [] else [line]) + Written(more)
  {
    hide *;
    WrittenAppends(lines + [line], more);
    WrittenAppends(lines, [line]);
    OneLineIsWritten(line);
  }

  /** The two languages agree on white space, but for four control characters that are white
      space to the register machine's. */
  lemma WhiteSpaceOfBothLanguages(c: char)
    ensures IsSpace(c) <==> Strings.IsSpace(c) || '\U{1C}' <= c <= '\U{1F}'
  {
  }
}

/**
 The reference answer the generator writes for a task, and what it scores.
 */
module Reference {
  import opened Wrappers
  import opened Text
  import opened Machine
  import opened Distances
  import opened Grammar
  import opened Reward
  import Strings
  import TaskText

  /** `reference`: a shortest program between the two program lines. */
  function Answer(p: seq<Command>): string {
    OPEN + Body(PrintAll(p)) + CLOSE
  }

  function Body(lines: seq<string>): string {
    "\n" + (TaskText.Join(lines, "\n") + "\n")
  }

  // ----- a block of plain lines is read as those lines

  predicate IsPlainChar(c: char) {
    c != '<' && !IsBreak(c)
  }

  /** A line that holds something, no line break and no beginning of a tag. */
  predicate IsPlain(line: string) {
    line != "" && !IsSpace(line[0]) && forall i :: 0 <= i < |line| ==> IsPlainChar(line[i])
  }

  predicate ArePlain(lines: seq<string>) {
    forall i :: 0 <= i < |lines| ==> IsPlain(lines[i])
  }

  lemma {:induction false} BreakAtIs(line: string, rest: string)
    requires forall i :: 0 <= i < |line| ==> !IsBreak(line[i])
    ensures BreakAt(line + "\n" + rest) == |line|
  {
    var s := line + "\n" + rest;
    if line != "" {
      BreakAtIs(line[1..], rest);
      assert s[1..] == line[1..] + "\n" + rest;
    }
  }

  lemma FirstLine(line: string, rest: string)
    requires forall i :: 0 <= i < |line| ==> !IsBreak(line[i])
    ensures SplitLines(line + "\n" + rest) == [line] + SplitLines(rest)
  {
    var s := line + "\n" + rest;
    BreakAtIs(line, rest);
    assert s[..|line|] == line && s[|line|] == '\n' && s[|line| + 1..] == rest;
  }

  lemma {:induction false} LinesSplit(lines: seq<string>)
    requires lines != [] && ArePlain(lines)
    ensures SplitLines(TaskText.Join(lines, "\n") + "\n") == lines
  {
    hide SplitLines;
    assert IsPlain(lines[0]);
    if |lines| == 1 {
      assert TaskText.Join(lines, "\n") + "\n" == lines[0] + "\n" + "";
      FirstLine(lines[0], "");
      NoLines();
    } else {
      var rest := lines[1..];
      LinesSplit(rest);
      assert TaskText.Join(lines, "\n") + "\n" == lines[0] + "\n" + (TaskText.Join(rest, "\n") + "\n");
      FirstLine(lines[0], TaskText.Join(rest, "\n") + "\n");
    }
  }

  lemma NoLines()
    ensures SplitLines("") == []
  {
  }

  lemma InkSurvivesStripping(s: string)
    requires s != "" && !IsSpace(s[0])
    ensures Strip(s) != ""
  {
  }

  lemma {:induction false} PlainLinesAreWritten(lines: seq<string>)
    requires ArePlain(lines)
    ensures Written(lines) == lines
  {
    hide Strip;
    if lines != [] {
      assert IsPlain(lines[0]);
      InkSurvivesStripping(lines[0]);
      PlainLinesAreWritten(lines[1..]);
    }
  }

  lemma BodyHoldsTheLines(lines: seq<string>)
    requires lines != [] && ArePlain(lines)
    ensures ProgramLines(Body(lines)) == lines
  {
    var text := TaskText.Join(lines, "\n") + "\n";
    assert Body(lines) == "" + "\n" + text;
    FirstLine("", text);
    LinesSplit(lines);
    StripIs("", "", "", "");
    PlainLinesAreWritten(lines);
    hide SplitLines;
    assert ([""] + lines)[1..] == lines;
  }

  // ----- the tags

  lemma OpensAtOnce(rest: string)
    ensures Strings.Find(OPEN, OPEN + rest, 0) == Some(0)
  {
  }

  lemma StandsByItsFirst(needle: string, s: string, at: nat)
    requires needle != ""
    ensures Strings.StandsAt(needle, s, at) ==> s[at] == needle[0]
  {
  }

  lemma ClosesAtTheEnd(front: string, body: string)
    requires forall i :: 0 <= i < |body| ==> body[i] != '<'
    ensures Strings.Find(CLOSE, front + body + CLOSE, |front|) == Some(|front| + |body|)
  {
    var text, end := front + body + CLOSE, |front| + |body|;
    assert text[end..end + |CLOSE|] == CLOSE;
    forall k | |front| <= k < end ensures !Strings.StandsAt(CLOSE, text, k) {
      assert text[k] == body[k - |front|];
      StandsByItsFirst(CLOSE, text, k);
    }
    Strings.FindIs(CLOSE, text, |front|, end);
  }

  lemma BlocksUnfold(text: string, i: nat, j: nat)
    requires Strings.Find(OPEN, text, 0) == Some(i) && Strings.Find(CLOSE, text, i + |OPEN|) == Some(j)
    ensures var (blocks, outside) := Blocks(text[j + |CLOSE|..]);
            Blocks(text) == ([text[i + |OPEN|..j]] + blocks, text[..i] + outside)
  {
    hide Strings.Find, Strings.StandsAt;
  }

  lemma OneBlock(body: string)
    requires forall i :: 0 <= i < |body| ==> body[i] != '<'
    ensures Blocks(OPEN + body + CLOSE) == ([body], "")
  {
    hide *;
    var text, end := OPEN + body + CLOSE, |OPEN| + |body|;
    assert text == OPEN + (body + CLOSE);
    OpensAtOnce(body + CLOSE);
    ClosesAtTheEnd(OPEN, body);
    BlocksUnfold(text, 0, end);
    NoBlocks();
    assert text[end + |CLOSE|..] == "" && text[0 + |OPEN|..end] == body;
    assert text[..0] + "" == "" && [body] + [] == [body];
    assert Blocks(text) == ([text[0 + |OPEN|..end]] + Blocks("").0, text[..0] + Blocks("").1);
  }

  lemma NoBlocks()
    ensures Blocks("") == ([], "")
  {
  }

  lemma {:induction false} BodyHasNoTags(lines: seq<string>)
    requires ArePlain(lines)
    ensures forall i :: 0 <= i < |TaskText.Join(lines, "\n")| ==> TaskText.Join(lines, "\n")[i] != '<'
  {
    if lines != [] {
      assert IsPlain(lines[0]);
      BodyHasNoTags(lines[1..]);
    }
  }

  // ----- printed commands are plain

  lemma PrintedIsPlain(task: Task, c: Command)
    requires ValidTask(task) && Grammar.Writable(task.world) && Listed(task, c)
    ensures IsPlain(Print(c))
  {
    assert c.op in OPERATIONS;
    assert c.register in task.world.registers;
    assert c.argument.Register? ==> c.argument.name in task.world.registers;
    var line, argument := Print(c), ArgumentText(c.argument);
    assert forall i :: 0 <= i < |argument| ==> IsDigit(argument[i]) || 'A' <= argument[i] <= 'Z';
    forall i | 0 <= i < |line| ensures IsPlainChar(line[i]) {
      if i < |c.op| {
        assert line[i] == c.op[i] && 'a' <= c.op[i] <= 'z';
      } else if i >= |c.op| + 3 {
        assert line[i] == argument[i - |c.op| - 3];
      }
    }
    assert line[0] == c.op[0];
  }

  lemma PrintedArePlain(task: Task, p: seq<Command>)
    requires ValidTask(task) && Grammar.Writable(task.world) && forall c :: c in p ==> Listed(task, c)
    ensures ArePlain(PrintAll(p))
  {
    hide Print, IsPlain, Listed;
    forall i | 0 <= i < |p| ensures IsPlain(PrintAll(p)[i]) {
      PrintedIsPlain(task, p[i]);
    }
  }

  lemma AnswerIsRead(task: Task, p: seq<Command>)
    requires ValidTask(task) && Grammar.Writable(task.world) && p != [] && forall c :: c in p ==> Listed(task, c)
    ensures Blocks(Answer(p)) == ([Body(PrintAll(p))], "")
    ensures Spelled(ProgramLines(Body(PrintAll(p))), p)
  {
    hide Blocks, ProgramLines, IsPlain, ParseCommand, Print, Listed;
    var lines := PrintAll(p);
    PrintedArePlain(task, p);
    BodyHoldsTheLines(lines);
    BodyHasNoTags(lines);
    OneBlock(Body(lines));
    PrintSpells(task, p);
  }

  /** A shortest program, written out as the prompt asks for it, earns the full
      reward, as long as it fits the limit. */
  lemma ShortestAnswerIsPerfect(task: Task, p: seq<Command>)
    requires ValidTask(task) && Grammar.Writable(task.world) && Gradable(task)
    requires Solves(task, task.start, p) && Distance(task, task.start) == Some(|p|)
    requires forall c :: c in p ==> Listed(task, c)
    ensures TrueScore(task, Answer(p)).Reward() == 1.0 <==> |p| <= task.limit
  {
    hide Execute, Blocks, ProgramLines, ParseCommand, Answer, TrueScore, Step, Listed, Strip;
    GoalIsNearest(task, task.start);
    AnswerIsRead(task, p);
    StripIs("", "", "", "");
    RewardIsOneIffPerfect(task, Answer(p));
    if |p| <= task.limit {
      assert IsPerfect(task, Answer(p), p);
    }
  }

  lemma WellMadeIsValid(task: Task)
    requires TaskText.WellMade(task)
    ensures ValidTask(task) && Grammar.Writable(task.world) && TaskText.Parse(TaskText.Render(task)) == Ok(task)
  {
    hide TaskText.Parse, TaskText.Render;
    TaskText.ParseUndoesRender(task);
    TaskText.ParsedTasksAreValid(TaskText.Render(task));
  }

  /** From a task to its prompt, its shortest program, the answer written out, the
      answer read back, run and graded against the prompt read back: the reward is 1,
      exactly if the limit allows for the distance. */
  method ScoreReference(task: Task) returns (score: Score)
    requires TaskText.WellMade(task) && (WellMadeIsValid(task); Gradable(task))
    ensures score.Reward() == 1.0 <==>
            (WellMadeIsValid(task); Distance(task, task.start).value <= task.limit)
  {
    hide TaskText.Parse, TaskText.Render, TaskText.WellMade, Answer, TrueScore, Listed, Execute;
    WellMadeIsValid(task);
    var program := Solve(task);
    var graded := ScoreCompletion(TaskText.Render(task), Answer(program.value));
    ShortestAnswerIsPerfect(task, program.value);
    score := graded.value;
  }
}

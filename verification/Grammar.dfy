/** The written form of commands, and running a written program line by line. */
module Grammar {
  import opened Wrappers
  import opened Text
  import opened Machine
  import opened Distances

  // ----- letters, as a case-insensitive pattern sees them

  /** A character a case-insensitive pattern takes for the lower-case letter `p`.
      Besides the capital, `s` also matches the long s. */
  predicate FoldsTo(c: char, p: char)
    requires 'a' <= p <= 'z'
  {
    c == p || c as int == p as int - 32 || (p == 's' && c == '\U{17F}')
  }

  predicate Spells(s: string, word: string)
    requires forall i :: 0 <= i < |word| ==> 'a' <= word[i] <= 'z'
  {
    |s| == |word| && forall i :: 0 <= i < |s| ==> FoldsTo(s[i], word[i])
  }

  /** `[a-z]` ignoring case: the ASCII letters and the four others that fold onto them. */
  predicate IsLetter(c: char) {
    'a' <= c <= 'z' || 'A' <= c <= 'Z' || c == '\U{130}' || c == '\U{131}' || c == '\U{17F}' || c == '\U{212A}'
  }

  function LowerChar(c: char): char {
    if 'A' <= c <= 'Z' then (c as int + 32) as char else c
  }

  function Lower(s: string): (r: string)
    ensures |r| == |s|
  {
    seq(|s|, i requires 0 <= i < |s| => LowerChar(s[i]))
  }

  function Upper(c: char): char {
    if 'a' <= c <= 'z' then (c as int - 32) as char
    else if c == '\U{131}' then 'I'
    else if c == '\U{17F}' then 'S'
    else c
  }

  // ----- one command

  /** White space, then one character that is none; also what is left after it. */
  function SpacedChar(text: string): Option<(char, string)> {
    var gap := SpacesBefore(text);
    if gap == 0 || gap == |text| then None else Some((text[gap], text[gap + 1..]))
  }

  /** A word of `width` characters, then two fields of one character each, with
      white space before each of them. */
  function Fields(text: string, width: nat): Option<(string, char, char)> {
    if |text| < width then None
    else match SpacedChar(text[width..])
      case None => None
      case Some((first, rest)) =>
        match SpacedChar(rest)
        case Some((second, "")) => Some((text[..width], first, second))
        case _ => None
  }

  function ParseCommand(line: string): Option<Command> {
    var text := Strip(line);
    match ParseArithmetic(Fields(text, 3))
    case Some(c) => Some(c)
    case None => ParseTransfer(Fields(text, 4))
  }

  function ParseArithmetic(fields: Option<(string, char, char)>): Option<Command> {
    match fields
    case Some((op, register, amount)) =>
      if (Spells(op, "add") || Spells(op, "sub")) && IsLetter(register) && '1' <= amount <= '9'
      then Some(Command(Lower(op), Upper(register), Amount(DigitValue(amount))))
      else None
    case None => None
  }

  function ParseTransfer(fields: Option<(string, char, char)>): Option<Command> {
    match fields
    case Some((op, first, second)) =>
      if (Spells(op, "copy") || Spells(op, "swap")) && IsLetter(first) && IsLetter(second)
         && Upper(first) != Upper(second)
      then Some(Command(Lower(op), Upper(first), Register(Upper(second))))
      else None
    case None => None
  }

  /** How the pieces of a written command are laid out on its line. */
  datatype Spelling = Spelling(before: string, op: string, gap: string, first: char,
                               secondGap: string, second: char, after: string)
  {
    function Core(): string {
      op + Tail()
    }

    function Tail(): string {
      gap + [first] + (secondGap + [second] + "")
    }

    function Line(): string {
      before + Core() + after
    }

    predicate WellSpaced() {
      && AllSpace(before) && AllSpace(after)
      && gap != "" && AllSpace(gap) && secondGap != "" && AllSpace(secondGap)
    }
  }

  /** The command grammar, stated on the pieces instead of searched for. */
  predicate Denotes(s: Spelling, c: Command) {
    && s.WellSpaced()
    && IsLetter(s.first) && c.op == Lower(s.op) && c.register == Upper(s.first)
    && if Spells(s.op, "add") || Spells(s.op, "sub")
       then '1' <= s.second <= '9' && c.argument == Amount(DigitValue(s.second))
       else && (Spells(s.op, "copy") || Spells(s.op, "swap")) && IsLetter(s.second)
            && Upper(s.second) != Upper(s.first) && c.argument == Register(Upper(s.second))
  }

  lemma SpacedCharIs(gap: string, c: char, rest: string)
    requires gap != "" && AllSpace(gap) && !IsSpace(c)
    ensures SpacedChar(gap + [c] + rest) == Some((c, rest))
  {
    var text := gap + [c] + rest;
    assert text[..|gap|] == gap;
    SpacesBeforeIs(text, |gap|);
    assert text[|gap| + 1..] == rest;
  }

  lemma SpacedCharSplits(text: string) returns (gap: string)
    requires SpacedChar(text).Some?
    ensures var (c, rest) := SpacedChar(text).value;
            text == gap + [c] + rest && gap != "" && AllSpace(gap) && !IsSpace(c)
  {
    gap := text[..SpacesBefore(text)];
  }

  lemma FieldsOfSpelling(s: Spelling, width: nat)
    requires s.WellSpaced() && !IsSpace(s.first) && !IsSpace(s.second)
    requires width <= |s.op| && (width < |s.op| ==> !IsSpace(s.op[width]))
    ensures Fields(s.Core(), width) ==
            if width == |s.op| then Some((s.op, s.first, s.second)) else None
  {
    if width == |s.op| {
      assert s.Core()[width..] == s.Tail();
      SpacedCharIs(s.gap, s.first, s.secondGap + [s.second] + "");
      SpacedCharIs(s.secondGap, s.second, "");
    } else {
      assert s.Core()[width..][0] == s.op[width];
    }
  }

  lemma FieldsSplit(text: string, width: nat) returns (gap: string, secondGap: string)
    requires Fields(text, width).Some?
    ensures var (op, first, second) := Fields(text, width).value;
            && text == op + (gap + [first] + (secondGap + [second] + ""))
            && gap != "" && AllSpace(gap) && secondGap != "" && AllSpace(secondGap)
  {
    gap := SpacedCharSplits(text[width..]);
    var (first, rest) := SpacedChar(text[width..]).value;
    secondGap := SpacedCharSplits(rest);
    hide SpacedChar, IsSpace, AllSpace;
    assert text == text[..width] + text[width..];
  }

  lemma SpellingOfFields(line: string, width: nat) returns (s: Spelling)
    requires Fields(Strip(line), width).Some?
    ensures s.Line() == line && s.WellSpaced()
    ensures Fields(Strip(line), width).value == (s.op, s.first, s.second)
  {
    hide Fields, Strip, IsSpace, AllSpace;
    var (op, first, second) := Fields(Strip(line), width).value;
    var before, after := StripSplits(line);
    var gap, secondGap := FieldsSplit(Strip(line), width);
    s := Spelling(before, op, gap, first, secondGap, second, after);
  }

  lemma LettersAreNotSpaces(s: string, word: string)
    requires forall i :: 0 <= i < |word| ==> 'a' <= word[i] <= 'z'
    requires Spells(s, word)
    ensures forall i :: 0 <= i < |s| ==> !IsSpace(s[i])
  {
  }

  /** `parse_command` accepts exactly the lines of the grammar, and reads each as
      the one command it denotes. */
  lemma ParseCommandIsTheGrammar(line: string, c: Command)
    ensures ParseCommand(line) == Some(c) <==> exists s: Spelling :: s.Line() == line && Denotes(s, c)
  {
    var text := Strip(line);
    if ParseCommand(line) == Some(c) {
      var width := if ParseArithmetic(Fields(text, 3)).Some? then 3 else 4;
      var s := SpellingOfFields(line, width);
      assert Denotes(s, c);
    }
    if exists s: Spelling :: s.Line() == line && Denotes(s, c) {
      var s: Spelling :| s.Line() == line && Denotes(s, c);
      DenotedIsParsed(s, c);
    }
  }

  lemma CoreIsStripped(s: Spelling)
    requires s.WellSpaced() && s.op != "" && !IsSpace(s.op[0]) && !IsSpace(s.second)
    ensures Strip(s.Line()) == s.Core()
  {
    hide Strip, IsSpace, AllSpace;
    assert s.Core()[0] == s.op[0];
    assert s.Core()[|s.Core()| - 1] == s.second;
    StripIs(s.Line(), s.before, s.Core(), s.after);
  }

  lemma DenotedHasNoSpaces(s: Spelling, c: Command)
    requires Denotes(s, c)
    ensures 3 <= |s.op| <= 4 && !IsSpace(s.first) && !IsSpace(s.second)
    ensures forall i :: 0 <= i < |s.op| ==> !IsSpace(s.op[i])
  {
    var word := if Spells(s.op, "add") then "add" else if Spells(s.op, "sub") then "sub"
                else if Spells(s.op, "copy") then "copy" else "swap";
    LettersAreNotSpaces(s.op, word);
  }

  lemma DenotedIsParsed(s: Spelling, c: Command)
    requires Denotes(s, c)
    ensures ParseCommand(s.Line()) == Some(c)
  {
    hide Strip, Fields, IsSpace, Lower, Upper, IsLetter;
    DenotedHasNoSpaces(s, c);
    CoreIsStripped(s);
    FieldsOfSpelling(s, 3);
    if |s.op| == 4 {
      FieldsOfSpelling(s, 4);
    }
  }

  /** A line that parses is never refused for naming no amount. */
  lemma ParsedCommandsAreTyped(line: string)
    requires ParseCommand(line).Some?
    ensures var c := ParseCommand(line).value;
            || (c.argument.Amount? && 1 <= c.argument.n <= 9 && !IsTransfer(c.op))
            || (c.argument.Register? && c.argument.name != c.register && !IsArithmetic(c.op))
  {
    var c := ParseCommand(line).value;
    ParseCommandIsTheGrammar(line, c);
    var s: Spelling :| s.Line() == line && Denotes(s, c);
  }

  // ----- printing

  function ArgumentText(a: Argument): string {
    match a
    case Amount(n) => if n >= 0 then Decimal(n) else "-" + Decimal(-n)
    case Register(name) => [name]
  }

  /** `Command.__str__`. */
  function Print(c: Command): string {
    c.op + " " + [c.register] + " " + ArgumentText(c.argument)
  }

  /** The machine as it is written: capital names and one-digit amounts. */
  ghost predicate Writable(w: World) {
    && w.maxAmount == 9
    && forall name :: name in w.registers ==> 'A' <= name <= 'Z'
  }

  lemma PrintParses(w: World, c: Command)
    requires Writable(w) && Grammatical(w, c) && c.register in w.registers
    requires c.argument.Register? ==> c.argument.name in w.registers
    ensures ParseCommand(Print(c)) == Some(c)
  {
    var s := Spelling("", c.op, " ", c.register, " ", ArgumentText(c.argument)[0], "");
    assert s.Line() == Print(c);
    assert Lower(c.op) == c.op;
    assert Denotes(s, c);
    DenotedIsParsed(s, c);
  }

  /** The same text, but for the case of its letters from A to Z. */
  predicate SameButCase(s: string, t: string) {
    |s| == |t| && forall i :: 0 <= i < |s| ==> IsSameLetter(s[i], t[i])
  }

  predicate IsSameLetter(a: char, b: char) {
    || a == b
    || ('a' <= a <= 'z' && b as int + 32 == a as int)
    || ('a' <= b <= 'z' && a as int + 32 == b as int)
  }

  lemma PrintedPieces(c: Command)
    requires |ArgumentText(c.argument)| == 1
    ensures var (n, printed) := (|c.op|, Print(c));
            && |printed| == n + 4 && printed[..n] == c.op && printed[n] == ' ' && printed[n + 1] == c.register
            && printed[n + 2] == ' ' && printed[n + 3] == ArgumentText(c.argument)[0]
  {
  }

  lemma RecasedDenotes(w: World, s: Spelling, c: Command)
    requires Writable(w) && Grammatical(w, c) && c.register in w.registers
    requires c.argument.Register? ==> c.argument.name in w.registers
    requires s.WellSpaced() && SameButCase(s.op, c.op) && IsSameLetter(s.first, c.register)
    requires |ArgumentText(c.argument)| == 1 && IsSameLetter(s.second, ArgumentText(c.argument)[0])
    ensures Denotes(s, c)
  {
    hide IsSpace, AllSpace;
    OpInAnyCase(s.op, c.op);
    assert c.op == "add" || c.op == "sub" || c.op == "copy" || c.op == "swap";
    assert OPERATIONS[0] == "add" && OPERATIONS[1] == "sub" && OPERATIONS[2] == "copy" && OPERATIONS[3] == "swap";
    hide Lower, Spells, SameButCase;
  }

  /** The pieces of a line laid out like a printed command. */
  function PiecesOf(line: string, n: nat): Spelling
    requires |line| == n + 4
  {
    Spelling("", line[..n], [line[n]], line[n + 1], [line[n + 2]], line[n + 3], "")
  }

  lemma PiecesMakeTheLine(line: string, n: nat)
    requires |line| == n + 4
    ensures PiecesOf(line, n).Line() == line
  {
    assert line == line[..n] + ([line[n]] + [line[n + 1]] + ([line[n + 2]] + [line[n + 3]] + ""));
  }

  lemma PiecesAreSame(line: string, printed: string, n: nat)
    requires |printed| == n + 4 && SameButCase(line, printed) && printed[n] == ' ' && printed[n + 2] == ' '
    ensures var s := PiecesOf(line, n);
            && SameButCase(s.op, printed[..n]) && IsSameLetter(s.first, printed[n + 1])
            && IsSameLetter(s.second, printed[n + 3]) && s.gap == s.secondGap == " "
  {
    assert IsSameLetter(line[n], printed[n]) && IsSameLetter(line[n + 2], printed[n + 2]);
  }

  /** A printed command reads back as itself in any mixture of cases. */
  lemma AnyCaseParses(w: World, c: Command, line: string)
    requires Writable(w) && Grammatical(w, c) && c.register in w.registers
    requires c.argument.Register? ==> c.argument.name in w.registers
    requires SameButCase(line, Print(c))
    ensures ParseCommand(line) == Some(c)
  {
    assert |ArgumentText(c.argument)| == 1;
    hide Print, Denotes, Writable, Grammatical, ArgumentText, IsSpace, ParseCommand, IsSameLetter;
    PrintedPieces(c);
    PiecesAreSame(line, Print(c), |c.op|);
    PiecesMakeTheLine(line, |c.op|);
    var s := PiecesOf(line, |c.op|);
    BlanksSpace(s);
    RecasedDenotes(w, s, c);
    DenotedIsParsed(s, c);
  }

  lemma BlanksSpace(s: Spelling)
    requires s.before == s.after == "" && s.gap == s.secondGap == " "
    ensures s.WellSpaced()
  {
  }

  lemma OpInAnyCase(op: string, word: string)
    requires word in OPERATIONS && SameButCase(op, word)
    ensures Lower(op) == word && Spells(op, word)
    ensures forall other :: other in OPERATIONS && other != word ==> !Spells(op, other)
  {
    assert word == "add" || word == "sub" || word == "copy" || word == "swap";
    forall i | 0 <= i < |word| ensures LowerChar(op[i]) == word[i] && FoldsTo(op[i], word[i]) {
      assert 'a' <= word[i] <= 'z';
    }
    assert "add"[0] == 'a' && "sub"[0] == 's' && "copy"[0] == 'c' && "swap"[0] == 's' && |"copy"| == |"swap"|;
  }

  /** What an ASCII line says is a command of the language, its name and its registers in
      their own case. */
  lemma AsciiLinesSpeakTheLanguage(w: World, line: string)
    requires w.maxAmount == 9 && ParseCommand(line).Some?
    requires forall i :: 0 <= i < |line| ==> line[i] < '\U{80}'
    ensures var c := ParseCommand(line).value;
            && c.op in OPERATIONS && Grammatical(w, c) && 'A' <= c.register <= 'Z'
            && (c.argument.Register? ==> 'A' <= c.argument.name <= 'Z')
  {
    var c := ParseCommand(line).value;
    ParseCommandIsTheGrammar(line, c);
    hide ParseCommand;
    var s: Spelling :| s.Line() == line && Denotes(s, c);
    PiecesOfLine(s, line);
    AsciiSpellings(w, s, c);
  }

  lemma AsciiOps(op: string, word: string)
    requires word == "add" || word == "sub" || word == "copy" || word == "swap"
    requires Spells(op, word) && forall i :: 0 <= i < |op| ==> op[i] < '\U{80}'
    ensures Lower(op) == word && word in OPERATIONS
  {
    assert OPERATIONS[0] == "add" && OPERATIONS[1] == "sub" && OPERATIONS[2] == "copy" && OPERATIONS[3] == "swap";
    forall i | 0 <= i < |word| ensures LowerChar(op[i]) == word[i] {
      assert 'a' <= word[i] <= 'z';
    }
  }

  lemma AsciiSpellings(w: World, s: Spelling, c: Command)
    requires w.maxAmount == 9 && Denotes(s, c) && s.first < '\U{80}' && s.second < '\U{80}'
    requires forall i :: 0 <= i < |s.op| ==> s.op[i] < '\U{80}'
    ensures c.op in OPERATIONS && Grammatical(w, c) && 'A' <= c.register <= 'Z'
    ensures c.argument.Register? ==> 'A' <= c.argument.name <= 'Z'
  {
    hide IsSpace, AllSpace;
    var word := if Spells(s.op, "add") then "add" else if Spells(s.op, "sub") then "sub"
                else if Spells(s.op, "copy") then "copy" else "swap";
    AsciiOps(s.op, word);
    hide Spells, Lower;
  }

  lemma PiecesOfLine(s: Spelling, line: string)
    requires s.Line() == line && forall i :: 0 <= i < |line| ==> line[i] < '\U{80}'
    ensures forall i :: 0 <= i < |s.op| ==> s.op[i] < '\U{80}'
    ensures s.first < '\U{80}' && s.second < '\U{80}'
  {
    var a := |s.before|;
    assert s.Core() == line[a..a + |s.Core()|];
    var core := s.Core();
    assert forall i :: 0 <= i < |core| ==> core[i] == line[a + i];
    assert forall i :: 0 <= i < |s.op| ==> core[i] == s.op[i];
    assert core[|s.op| + |s.gap|] == s.first;
    assert core[|core| - 1] == s.second;
  }

  // ----- running a program

  datatype RunError = TooMany(limit: nat) | NotACommand(text: string) | Refused(why: Illegal)

  datatype Run = Run(state: State, executed: nat, error: Option<RunError>)

  /** What is left to run of a program, `count` of whose lines have run. */
  function RunFrom(task: Task, s: State, lines: seq<string>, count: nat): Run
    requires |task.start| <= |task.world.registers| && |s| == |task.start|
    decreases |lines|
  {
    if lines == [] then Run(s, count, None)
    else if count == task.limit then Run(s, count, Some(TooMany(task.limit)))
    else match ParseCommand(lines[0])
      case None => Run(s, count, Some(NotACommand(Strip(lines[0]))))
      case Some(c) =>
        match Step(task, s, c)
        case Err(why) => Run(s, count, Some(Refused(why)))
        case Ok(t) => RunFrom(task, t, lines[1..], count + 1)
  }

  /** A run stops no earlier than it must: with an error it stopped at a line that is past
      the limit, or outside the grammar, or refused in the state reached; without one it
      has no line left. */
  lemma {:induction false} RunsStopWhereTheyMust(task: Task, s: State, lines: seq<string>, count: nat)
    requires ValidTask(task) && |s| == |task.start| && count <= task.limit
    ensures var r := RunFrom(task, s, lines, count);
            && count <= r.executed <= count + |lines| && |r.state| == |s|
            && var k := r.executed - count;
               && (r.error.None? <==> k == |lines|)
               && (r.error.Some? && r.executed == task.limit ==> r.error.value == TooMany(task.limit))
               && (r.error.Some? && r.executed < task.limit ==>
                     if ParseCommand(lines[k]).None? then r.error.value == NotACommand(Strip(lines[k]))
                     else
                       && Step(task, r.state, ParseCommand(lines[k]).value).Err?
                       && r.error.value == Refused(Step(task, r.state, ParseCommand(lines[k]).value).error))
    decreases |lines|
  {
    hide Step, ParseCommand, Strip;
    if lines != [] && count != task.limit && ParseCommand(lines[0]).Some? {
      var c := ParseCommand(lines[0]).value;
      if Step(task, s, c).Ok? {
        RunsStopWhereTheyMust(task, Step(task, s, c).value, lines[1..], count + 1);
      }
    }
  }

  method RunProgram(task: Task, lines: seq<string>) returns (r: Run)
    requires ValidTask(task)
    ensures r == RunFrom(task, task.start, lines, 0)
  {
    var state := task.start;
    for count := 0 to |lines|
      invariant |state| == |task.start|
      invariant RunFrom(task, state, lines[count..], count) == RunFrom(task, task.start, lines, 0)
    {
      assert lines[count..][1..] == lines[count + 1..];
      if count == task.limit {
        return Run(state, count, Some(TooMany(task.limit)));
      }
      var command := ParseCommand(lines[count]);
      if command.None? {
        return Run(state, count, Some(NotACommand(Strip(lines[count]))));
      }
      var after := Step(task, state, command.value);
      if after.Err? {
        return Run(state, count, Some(Refused(after.error)));
      }
      state := after.value;
    }
    return Run(state, |lines|, None);
  }

  function PrintAll(p: seq<Command>): (lines: seq<string>)
    ensures |lines| == |p|
  {
    seq(|p|, i requires 0 <= i < |p| => Print(p[i]))
  }

  /** The lines spell the commands of `p`, one each. */
  predicate Spelled(lines: seq<string>, p: seq<Command>) {
    |lines| == |p| && forall i :: 0 <= i < |p| ==> ParseCommand(lines[i]) == Some(p[i])
  }

  /** A program within the limit, however it is spelled, runs as its commands. */
  lemma {:induction false} SpelledProgramRuns(task: Task, s: State, lines: seq<string>, p: seq<Command>, count: nat)
    requires ValidTask(task) && |s| == |task.start|
    requires Spelled(lines, p) && Execute(task, s, p).Some? && count + |p| <= task.limit
    ensures RunFrom(task, s, lines, count) == Run(Execute(task, s, p).value, count + |p|, None)
    decreases |p|
  {
    hide Step, ParseCommand;
    if p != [] {
      SpelledProgramRuns(task, Step(task, s, p[0]).value, lines[1..], p[1..], count + 1);
    }
  }

  /** A printed program of listed commands spells those commands. */
  lemma PrintSpells(task: Task, p: seq<Command>)
    requires ValidTask(task) && Writable(task.world)
    requires forall c :: c in p ==> Listed(task, c)
    ensures Spelled(PrintAll(p), p)
  {
    hide ParseCommand, Print;
    forall i | 0 <= i < |p| ensures ParseCommand(PrintAll(p)[i]) == Some(p[i]) {
      assert Listed(task, p[i]);
      assert forall name :: name in Registers(task) ==> name in task.world.registers;
      PrintParses(task.world, p[i]);
    }
  }

  lemma LineRunsLegally(task: Task, s: State, line: string)
    requires ValidTask(task) && task.world.maxAmount == 9 && |s| == |task.start|
    requires ParseCommand(line).Some? && Step(task, s, ParseCommand(line).value).Ok?
    ensures Legal(task, s, ParseCommand(line).value, Step(task, s, ParseCommand(line).value).value)
  {
    ParsedCommandsAreTyped(line);
  }

  /** Whatever was written, the lines that ran are a legal program of that many
      commands, and it ended where the run says. */
  lemma {:induction false} RunsAreExecutions(task: Task, s: State, lines: seq<string>, count: nat) returns (p: seq<Command>)
    requires ValidTask(task) && task.world.maxAmount == 9 && IsState(task.world, |task.start|, s)
    ensures var r := RunFrom(task, s, lines, count);
            && IsState(task.world, |task.start|, r.state)
            && Execute(task, s, p) == Some(r.state)
            && r.executed == count + |p|
            && |p| <= |lines| && Spelled(lines[..|p|], p)
            && (r.error.None? <==> |p| == |lines|)
            && (count <= task.limit ==> r.executed <= task.limit)
    decreases |lines|
  {
    hide Step, ParseCommand;
    p := [];
    if lines != [] && count != task.limit && ParseCommand(lines[0]).Some? {
      var c := ParseCommand(lines[0]).value;
      if Step(task, s, c).Ok? {
        var t := Step(task, s, c).value;
        LineRunsLegally(task, s, lines[0]);
        LegalIsMove(task, s, c, t);
        var rest := RunsAreExecutions(task, t, lines[1..], count + 1);
        p := [c] + rest;
        assert p[1..] == rest && lines[..|p|][1..] == lines[1..][..|rest|];
      }
    } else {
      assert Execute(task, s, []) == Some(s);
    }
  }

  /** The whole loop of a task: the solver's program, printed and run within any
      limit it fits in, ends without an error on the goal, and uses as many
      commands as the goal is away. */
  method SolveAndRun(task: Task) returns (program: Option<seq<Command>>, r: Option<Run>)
    requires ValidTask(task) && Writable(task.world)
    ensures program.None? <==> Distance(task, task.start).None?
    ensures program.Some? ==> Distance(task, task.start) == Some(|program.value|)
    ensures program.Some? && |program.value| <= task.limit ==>
              r == Some(Run(task.goal, |program.value|, None))
  {
    hide RunFrom, Execute, Step, ParseCommand, Listed;
    program := Solve(task);
    r := None;
    if program.Some? {
      var run := RunProgram(task, PrintAll(program.value));
      r := Some(run);
      if |program.value| <= task.limit {
        PrintSpells(task, program.value);
        SpelledProgramRuns(task, task.start, PrintAll(program.value), program.value, 0);
      }
    }
  }
}

/** The prompt a task is written as, and reading it back. */
module TaskText {
  import opened Wrappers
  import opened Text
  import opened Machine

  /** The machine as the source fixes it. */
  const MACHINE := World("ABCD", 0, 9, 9)

  datatype ParseError =
    | NotATask
    | UnknownCommand
    | MalformedRegisters
    | RegistersOutOfOrder
    | RegisterCount
    | NotDigits
    | OperationOrder
    | LimitNotPositive

  // ----- joining and splitting

  function Join(parts: seq<string>, separator: string): string {
    if parts == [] then ""
    else if |parts| == 1 then parts[0]
    else parts[0] + separator + Join(parts[1..], separator)
  }

  /** `s.split(c)`. */
  function Split(s: string, c: char): (parts: seq<string>)
    ensures parts != []
  {
    if s == "" then [""]
    else if s[0] == c then [""] + Split(s[1..], c)
    else
      var rest := Split(s[1..], c);
      [[s[0]] + rest[0]] + rest[1..]
  }

  lemma {:induction false} SplitFirst(word: string, s: string, c: char)
    requires c !in word
    ensures Split(word, c) == [word]
    ensures Split(word + [c] + s, c) == [word] + Split(s, c)
  {
    if word == "" {
      assert word + [c] + s == [c] + s;
    } else {
      SplitFirst(word[1..], s, c);
      assert (word + [c] + s)[1..] == word[1..] + [c] + s;
      assert word == [word[0]] + word[1..];
    }
  }

  lemma {:induction false} SplitUndoesJoin(parts: seq<string>, c: char)
    requires parts != [] && forall part :: part in parts ==> c !in part
    ensures Split(Join(parts, [c]), c) == parts
  {
    assert parts[0] in parts;
    SplitFirst(parts[0], Join(parts[1..], [c]), c);
    if |parts| > 1 {
      SplitUndoesJoin(parts[1..], c);
    }
  }

  // ----- register lists

  /** A register and the digit it holds, as the pattern `([A-D])=(\d)` captures them. */
  type Pair = (char, char)

  predicate IsPair(p: Pair) {
    'A' <= p.0 <= 'D' && IsDigit(p.1)
  }

  predicate ArePairs(pairs: seq<Pair>) {
    forall i :: 0 <= i < |pairs| ==> IsPair(pairs[i])
  }

  function PairText(p: Pair): string {
    [p.0, '=', p.1]
  }

  function PairsText(pairs: seq<Pair>): string {
    Join(seq(|pairs|, i requires 0 <= i < |pairs| => PairText(pairs[i])), " ")
  }

  /** `findall`: every match from the left, none overlapping. */
  function FindPairs(text: string): (pairs: seq<Pair>)
    ensures ArePairs(pairs)
  {
    if |text| < 3 then []
    else if IsPair((text[0], text[2])) && text[1] == '=' then [(text[0], text[2])] + FindPairs(text[3..])
    else FindPairs(text[1..])
  }

  function Names(pairs: seq<Pair>): string {
    seq(|pairs|, i requires 0 <= i < |pairs| => pairs[i].0)
  }

  function Values(pairs: seq<Pair>): State
    requires ArePairs(pairs)
  {
    seq(|pairs|, i requires 0 <= i < |pairs| => DigitValue(pairs[i].1))
  }

  function ParseState(text: string): Result<State, ParseError> {
    var pairs := FindPairs(text);
    if PairsText(pairs) != Strip(text) then Err(MalformedRegisters)
    else if |pairs| > |MACHINE.registers| || Names(pairs) != MACHINE.registers[..|pairs|]
    then Err(RegistersOutOfOrder)
    else Ok(Values(pairs))
  }

  predicate DigitState(s: State) {
    |s| <= |MACHINE.registers| && forall i :: 0 <= i < |s| ==> 0 <= s[i] <= 9
  }

  function PairsOf(s: State): seq<Pair>
    requires DigitState(s)
  {
    seq(|s|, i requires 0 <= i < |s| => (MACHINE.registers[i], DigitOf(s[i])))
  }

  function StateText(s: State): string
    requires DigitState(s)
  {
    PairsText(PairsOf(s))
  }

  lemma PairThen(p: Pair, others: string)
    requires IsPair(p)
    ensures FindPairs(PairText(p) + " " + others) == [p] + FindPairs(others)
  {
  }

  lemma PairsTextUnfolds(pairs: seq<Pair>)
    requires pairs != []
    ensures PairsText(pairs) == if |pairs| == 1 then PairText(pairs[0])
                                else PairText(pairs[0]) + " " + PairsText(pairs[1..])
  {
    var texts, rest := seq(|pairs|, i requires 0 <= i < |pairs| => PairText(pairs[i])), pairs[1..];
    hide PairText;
    assert texts[1..] == seq(|rest|, i requires 0 <= i < |rest| => PairText(rest[i]));
  }

  lemma {:induction false} FindPairsReadsBack(pairs: seq<Pair>)
    requires ArePairs(pairs)
    ensures FindPairs(PairsText(pairs)) == pairs
  {
    if pairs != [] {
      PairsTextUnfolds(pairs);
      FindPairsReadsBack(pairs[1..]);
      if |pairs| == 1 {
        assert PairText(pairs[0])[3..] == "";
      } else {
        PairThen(pairs[0], PairsText(pairs[1..]));
      }
      hide PairsText, PairText;
    }
  }

  lemma {:induction false} PairsTextIsOneLine(pairs: seq<Pair>)
    requires ArePairs(pairs)
    ensures pairs != [] ==> |PairsText(pairs)| >= 3 && !IsSpace(PairsText(pairs)[0])
                            && !IsSpace(PairsText(pairs)[|PairsText(pairs)| - 1])
    ensures '\n' !in PairsText(pairs)
  {
    if pairs != [] {
      PairsTextUnfolds(pairs);
      PairsTextIsOneLine(pairs[1..]);
      hide PairsText;
      assert !IsSpace(pairs[0].0) && !IsSpace(pairs[0].1);
      hide IsSpace;
    }
  }

  lemma StateReadsBack(s: State)
    requires DigitState(s) && s != []
    ensures ParseState(StateText(s)) == Ok(s)
    ensures StateText(s) != "" && '\n' !in StateText(s)
  {
    var pairs := PairsOf(s);
    PairsHold(s);
    var text := PairsText(pairs);
    hide Strip, FindPairs, PairsText;
    FindPairsReadsBack(pairs);
    PairsTextIsOneLine(pairs);
    StripIs(text, "", text, "");
  }

  lemma PairsHold(s: State)
    requires DigitState(s)
    ensures ArePairs(PairsOf(s)) && Names(PairsOf(s)) == MACHINE.registers[..|s|] && Values(PairsOf(s)) == s
  {
  }

  // ----- operations

  /** The operations of the machine that occur in `operations`, in canonical order. */
  function InOrder(operations: seq<string>, all: seq<string>): seq<string> {
    if all == [] then []
    else (if all[0] in operations then [all[0]] else []) + InOrder(operations, all[1..])
  }

  function OperationsText(operations: seq<string>): string {
    Join(operations, ", ")
  }

  function StripAll(parts: seq<string>): (r: seq<string>)
    ensures |r| == |parts|
  {
    seq(|parts|, i requires 0 <= i < |parts| => Strip(parts[i]))
  }

  function ParseOperations(text: string): seq<string> {
    StripAll(Split(text, ','))
  }

  /** What splitting at the comma leaves of `", "`: a blank before every name but the first. */
  function Padded(operations: seq<string>): (r: seq<string>)
    ensures |r| == |operations|
  {
    seq(|operations|, i requires 0 <= i < |operations| => if i == 0 then operations[i] else " " + operations[i])
  }

  lemma {:induction false} JoinPadded(operations: seq<string>)
    requires operations != []
    ensures Join(operations, ", ") == Join(Padded(operations), ",")
  {
    if |operations| > 1 {
      var rest := operations[1..];
      JoinPadded(rest);
      var padded := Padded(operations)[1..];
      assert padded[0] == " " + rest[0];
      assert padded[1..] == Padded(rest)[1..];
      assert Join(padded, ",") == " " + Join(Padded(rest), ",");
      assert operations[0] + ", " + Join(rest, ", ") == operations[0] + "," + (" " + Join(rest, ", "));
    }
  }

  predicate IsWord(s: string) {
    s != "" && forall i :: 0 <= i < |s| ==> 'a' <= s[i] <= 'z'
  }

  lemma WordsHoldNoComma(operations: seq<string>)
    requires forall op :: op in operations ==> IsWord(op)
    ensures forall part :: part in Padded(operations) ==> ',' !in part
  {
    var padded := Padded(operations);
    forall part | part in padded ensures ',' !in part {
      var i :| 0 <= i < |padded| && padded[i] == part;
      assert operations[i] in operations;
    }
  }

  lemma StripsToTheWord(blank: string, op: string)
    requires (blank == "" || blank == " ") && IsWord(op)
    ensures Strip(blank + op) == op
  {
    hide Strip;
    assert blank + op == blank + op + "";
    StripIs(blank + op, blank, op, "");
  }

  lemma OperationsReadBack(operations: seq<string>)
    requires operations != [] && forall op :: op in operations ==> IsWord(op)
    ensures ParseOperations(OperationsText(operations)) == operations
  {
    hide Strip, IsWord, Join, Split;
    var padded := Padded(operations);
    JoinPadded(operations);
    WordsHoldNoComma(operations);
    SplitUndoesJoin(padded, ',');
    forall i | 0 <= i < |operations| ensures Strip(padded[i]) == operations[i] {
      assert operations[i] in operations;
      StripsToTheWord(if i == 0 then "" else " ", operations[i]);
      assert "" + operations[i] == operations[i];
    }
  }

  lemma {:induction false} OperationsAreOneLine(operations: seq<string>)
    requires operations != [] && forall op :: op in operations ==> IsWord(op)
    ensures OperationsText(operations) != "" && '\n' !in OperationsText(operations)
  {
    assert operations[0] in operations;
    if |operations| > 1 {
      OperationsAreOneLine(operations[1..]);
    }
  }

  // ----- the task

  /** `Task.__post_init__`: a task object exists only when this finds no fault. */
  function Fault(task: Task): Option<ParseError> {
    if !(2 <= |task.start| <= |MACHINE.registers|) || |task.goal| != |task.start| then Some(RegisterCount)
    else if exists value :: value in task.start + task.goal && !InRange(MACHINE, value) then Some(NotDigits)
    else if task.operations == [] || task.operations != InOrder(task.operations, OPERATIONS) then Some(OperationOrder)
    else if task.limit < 1 then Some(LimitNotPositive)
    else None
  }

  predicate WellMade(task: Task) {
    task.world == MACHINE && Fault(task) == None
  }

  const START := "Start: "
  const GOAL := "Goal: "
  const ALLOWED := "Allowed commands: "
  const AT_MOST := "Use at most "

  function LimitLine(limit: nat): string {
    AT_MOST + Decimal(limit) + " command" + (if limit == 1 then "" else "s") + "."
  }

  lemma WellMadeStates(task: Task)
    requires WellMade(task)
    ensures DigitState(task.start) && DigitState(task.goal)
  {
    forall i | 0 <= i < |task.start| ensures 0 <= task.start[i] <= 9 && 0 <= task.goal[i] <= 9 {
      assert task.start[i] in task.start + task.goal && task.goal[i] in task.start + task.goal;
    }
  }

  /** The four lines of a rendered task. */
  function TaskLines(task: Task): seq<string>
    requires WellMade(task)
  {
    WellMadeStates(task);
    [START + StateText(task.start),
     GOAL + StateText(task.goal),
     ALLOWED + OperationsText(task.operations),
     LimitLine(task.limit)]
  }

  function Render(task: Task): string
    requires WellMade(task)
  {
    Join(TaskLines(task), "\n")
  }

  /** What a line holds after `prefix`, when that is at least one character. */
  function After(prefix: string, line: string): Option<string> {
    if |line| > |prefix| && line[..|prefix|] == prefix then Some(line[|prefix|..]) else None
  }

  function DigitsBefore(s: string): (n: nat)
    ensures n <= |s| && AllDigits(s[..n])
    ensures n < |s| ==> !IsDigit(s[n])
  {
    if s == "" || !IsDigit(s[0]) then 0
    else
      var n := DigitsBefore(s[1..]);
      assert s[..n + 1] == [s[0]] + s[1..][..n];
      n + 1
  }

  lemma {:induction false} DigitsBeforeIs(s: string, n: nat)
    requires n <= |s| && AllDigits(s[..n]) && (n < |s| ==> !IsDigit(s[n]))
    ensures DigitsBefore(s) == n
  {
    if n > 0 {
      assert s[0] == s[..n][0];
      assert s[1..][..n - 1] == s[..n][1..];
      DigitsBeforeIs(s[1..], n - 1);
    }
  }

  function ParseLimit(line: string): Option<nat> {
    match After(AT_MOST, line)
    case None => None
    case Some(rest) =>
      var n := DigitsBefore(rest);
      if n > 0 && (rest[n..] == " command." || rest[n..] == " commands.")
      then Some(DecimalValue(rest[..n])) else None
  }

  /** The groups the task pattern captures, when it matches from this line on. */
  datatype Groups = Groups(start: string, goal: string, operations: string, limit: nat)

  function MatchAt(lines: seq<string>): Option<Groups> {
    if |lines| < 4 then None
    else
      match (After(START, lines[0]), After(GOAL, lines[1]), After(ALLOWED, lines[2]), ParseLimit(lines[3]))
      case (Some(start), Some(goal), Some(operations), Some(limit)) => Some(Groups(start, goal, operations, limit))
      case _ => None
  }

  /** The leftmost match, as `search` finds it. */
  function Search(lines: seq<string>): Option<Groups> {
    if lines == [] then None
    else match MatchAt(lines)
      case Some(groups) => Some(groups)
      case None => Search(lines[1..])
  }

  function Parse(text: string): Result<Task, ParseError> {
    match Search(Split(text, '\n'))
    case None => Err(NotATask)
    case Some(groups) =>
      var operations := ParseOperations(groups.operations);
      if exists op :: op in operations && op !in OPERATIONS then Err(UnknownCommand)
      else
        match (ParseState(groups.start), ParseState(groups.goal))
        case (Err(e), _) => Err(e)
        case (Ok(_), Err(e)) => Err(e)
        case (Ok(start), Ok(goal)) =>
          var task := Task(MACHINE, start, goal, operations, groups.limit);
          match Fault(task)
          case Some(e) => Err(e)
          case None => Ok(task)
  }

  lemma {:induction false} InOrderMembers(operations: seq<string>, all: seq<string>, op: string)
    ensures op in InOrder(operations, all) <==> op in operations && op in all
  {
    if all != [] {
      InOrderMembers(operations, all[1..], op);
    }
  }

  lemma OperationsAreKnown(task: Task)
    requires WellMade(task)
    ensures forall op :: op in task.operations ==> op in OPERATIONS && IsWord(op)
  {
    forall op | op in task.operations ensures op in OPERATIONS && IsWord(op) {
      InOrderMembers(task.operations, OPERATIONS, op);
    }
  }

  lemma DigitsThenTail(digits: string, tail: string)
    requires digits != "" && AllDigits(digits) && (tail == " command." || tail == " commands.")
    ensures ParseLimit(AT_MOST + (digits + tail)) == Some(DecimalValue(digits))
  {
    hide DecimalValue, DigitsBefore;
    var rest := digits + tail;
    assert rest[..|digits|] == digits && rest[|digits|..] == tail;
    DigitsBeforeIs(rest, |digits|);
    AfterPrefix(AT_MOST, rest);
    hide After;
  }

  lemma LimitReadsBack(limit: nat)
    ensures ParseLimit(LimitLine(limit)) == Some(limit)
    ensures '\n' !in LimitLine(limit)
  {
    hide ParseLimit, DecimalValue;
    var digits := Decimal(limit);
    var tail := " command" + (if limit == 1 then "" else "s") + ".";
    assert LimitLine(limit) == AT_MOST + (digits + tail);
    hide Decimal;
    assert tail == " command." || tail == " commands.";
    DigitsThenTail(digits, tail);
    DecimalReadsBack(limit);
  }

  lemma AfterPrefix(prefix: string, rest: string)
    requires rest != ""
    ensures After(prefix, prefix + rest) == Some(rest)
  {
  }

  lemma {:induction false} SearchSkips(before: seq<string>, lines: seq<string>)
    requires forall line :: line in before ==> After(START, line).None?
    ensures Search(before + lines) == Search(lines)
  {
    if before == [] {
      assert before + lines == lines;
    } else {
      assert before[0] in before;
      assert (before + lines)[0] == before[0] && (before + lines)[1..] == before[1..] + lines;
      SearchSkips(before[1..], lines);
    }
  }

  /** A rendered task is read back wherever it stands in a prompt, as long as no
      earlier line looks like the start of one. */
  lemma ParseFindsTheTask(task: Task, text: string, before: seq<string>, after: seq<string>)
    requires WellMade(task)
    requires forall line :: line in before ==> After(START, line).None?
    requires Split(text, '\n') == before + TaskLines(task) + after
    ensures Parse(text) == Ok(task)
  {
    hide Split, Strip, ParseState, StateText, ParseLimit, LimitLine, OperationsText, ParseOperations;
    WellMadeStates(task);
    StateReadsBack(task.start);
    StateReadsBack(task.goal);
    OperationsAreKnown(task);
    OperationsReadBack(task.operations);
    OperationsAreOneLine(task.operations);
    LimitReadsBack(task.limit);
    var lines := TaskLines(task) + after;
    AfterPrefix(START, StateText(task.start));
    AfterPrefix(GOAL, StateText(task.goal));
    AfterPrefix(ALLOWED, OperationsText(task.operations));
    assert MatchAt(lines) == Some(Groups(StateText(task.start), StateText(task.goal),
                                         OperationsText(task.operations), task.limit));
    assert before + TaskLines(task) + after == before + lines;
    SearchSkips(before, lines);
  }

  /** `parse` undoes `render`, for every task and every limit, singular included. */
  lemma ParseUndoesRender(task: Task)
    requires WellMade(task)
    ensures Parse(Render(task)) == Ok(task)
  {
    hide Split, StateText, LimitLine, OperationsText, ParseState, ParseOperations, ParseLimit;
    WellMadeStates(task);
    StateReadsBack(task.start);
    StateReadsBack(task.goal);
    OperationsAreKnown(task);
    OperationsAreOneLine(task.operations);
    LimitReadsBack(task.limit);
    SplitUndoesJoin(TaskLines(task), '\n');
    assert [] + TaskLines(task) + [] == TaskLines(task);
    ParseFindsTheTask(task, Render(task), [], []);
  }

  /** The place of an operation in the machine's own order. */
  function Rank(op: string): nat {
    if op == "add" then 0 else if op == "sub" then 1 else if op == "copy" then 2 else 3
  }

  /** Some of the machine's operations, each at most once, in the machine's order. */
  ghost predicate AscendFrom(operations: seq<string>, k: nat) {
    && (forall i :: 0 <= i < |operations| ==> operations[i] in OPERATIONS && Rank(operations[i]) >= k)
    && (forall i, j :: 0 <= i < j < |operations| ==> Rank(operations[i]) < Rank(operations[j]))
  }

  lemma RankOfOperation(k: nat)
    requires k < |OPERATIONS|
    ensures Rank(OPERATIONS[k]) == k && OPERATIONS[k] in OPERATIONS
  {
    assert OPERATIONS == ["add", "sub", "copy", "swap"];
    assert "copy"[0] == 'c' && "swap"[0] == 's' && "swap"[1] == 'w' && "sub"[1] == 'u';
  }

  lemma OneAhead(first: string, rest: seq<string>, k: nat)
    requires first in OPERATIONS && Rank(first) == k && AscendFrom(rest, k + 1)
    ensures AscendFrom([first] + rest, k) && AscendFrom(rest, k)
  {
    hide Rank;
  }

  lemma {:induction false} InOrderAscends(operations: seq<string>, k: nat)
    requires k <= |OPERATIONS|
    ensures AscendFrom(InOrder(operations, OPERATIONS[k..]), k)
    decreases |OPERATIONS| - k
  {
    hide Rank, AscendFrom;
    if k < |OPERATIONS| {
      RankOfOperation(k);
      InOrderAscends(operations, k + 1);
      var all := OPERATIONS[k..];
      assert all[0] == OPERATIONS[k] && all[1..] == OPERATIONS[k + 1..];
      var rest := InOrder(operations, OPERATIONS[k + 1..]);
      OneAhead(OPERATIONS[k], rest, k);
      var none: seq<string> := [];
      assert none + rest == rest;
      assert InOrder(operations, all) == (if OPERATIONS[k] in operations then [OPERATIONS[k]] else none) + rest;
    } else {
      NothingAscends(k);
    }
  }

  lemma NothingAscends(k: nat)
    ensures AscendFrom([], k)
  {
  }

  /** Whatever `parse` accepts is a task the machine can run: two to four registers,
      start and goal alike, a digit in each, at least one operation, none twice and in
      the machine's order, and room for a command. */
  lemma ParsedTasksAreValid(text: string)
    ensures Parse(text).Ok? ==>
              var task := Parse(text).value;
              && WellMade(task) && ValidTask(task)
              && 2 <= |task.start| == |task.goal| <= 4 && DigitState(task.start) && DigitState(task.goal)
              && task.operations != [] && AscendFrom(task.operations, 0) && task.limit >= 1
  {
    hide Search, Split, ParseOperations, ParseState;
    if Parse(text).Ok? {
      var task := Parse(text).value;
      OperationsAreKnown(task);
      WellMadeStates(task);
      InOrderAscends(task.operations, 0);
      assert OPERATIONS[0..] == OPERATIONS;
    }
  }

  // ----- what is parsed is written there

  /** The lines from `i` on say this task: the registers with nothing but white space around
      them, the operations with commas between them, the limit in digits. */
  ghost predicate Says(lines: seq<string>, i: nat, task: Task) {
    && i + 4 <= |lines| && DigitState(task.start) && DigitState(task.goal)
    && (exists text :: lines[i] == START + text && Strip(text) == StateText(task.start))
    && (exists text :: lines[i + 1] == GOAL + text && Strip(text) == StateText(task.goal))
    && (exists text :: lines[i + 2] == ALLOWED + text && ParseOperations(text) == task.operations)
    && IsLimitLine(lines[i + 3], task.limit)
  }

  ghost predicate IsLimitLine(line: string, limit: nat) {
    exists digits, tail :: SaysLimit(line, digits, tail, limit)
  }

  ghost predicate SaysLimit(line: string, digits: string, tail: string, limit: nat) {
    && digits != "" && AllDigits(digits) && (tail == " command." || tail == " commands.")
    && line == AT_MOST + digits + tail && DecimalValue(digits) == limit
  }

  lemma DigitsOfValues(pairs: seq<Pair>)
    requires ArePairs(pairs) && |pairs| <= |MACHINE.registers| && Names(pairs) == MACHINE.registers[..|pairs|]
    ensures DigitState(Values(pairs)) && PairsOf(Values(pairs)) == pairs
  {
    forall i | 0 <= i < |pairs| ensures PairsOf(Values(pairs))[i] == pairs[i] {
      assert Names(pairs)[i] == MACHINE.registers[i];
    }
  }

  lemma ParsedStateIsWritten(text: string)
    requires ParseState(text).Ok?
    ensures DigitState(ParseState(text).value) && Strip(text) == StateText(ParseState(text).value)
  {
    hide Strip, FindPairs, PairsText, Values, Names, PairsOf;
    DigitsOfValues(FindPairs(text));
  }

  lemma AfterIsTheRest(prefix: string, line: string)
    requires After(prefix, line).Some?
    ensures line == prefix + After(prefix, line).value
  {
  }

  lemma ParsedLimitIsWritten(line: string)
    requires ParseLimit(line).Some?
    ensures IsLimitLine(line, ParseLimit(line).value)
  {
    AfterIsTheRest(AT_MOST, line);
    var rest := After(AT_MOST, line).value;
    var n := DigitsBefore(rest);
    hide DecimalValue, DigitsBefore, After;
    assert line == AT_MOST + rest[..n] + rest[n..];
    assert rest[..n] != "";
    assert SaysLimit(line, rest[..n], rest[n..], ParseLimit(line).value);
  }

  lemma {:induction false} SearchFindsAMatch(lines: seq<string>) returns (i: nat)
    requires Search(lines).Some?
    ensures i + 4 <= |lines| && MatchAt(lines[i..]) == Search(lines)
    ensures forall k :: 0 <= k < i ==> MatchAt(lines[k..]).None?
  {
    hide MatchAt;
    if MatchAt(lines).Some? {
      i := 0;
      assert lines[0..] == lines;
      MatchesAreFourLines(lines);
    } else {
      i := SearchFindsAMatch(lines[1..]);
      i := i + 1;
      assert lines[i..] == lines[1..][i - 1..];
      forall k | 0 <= k < i ensures MatchAt(lines[k..]).None? {
        if k == 0 {
          assert lines[0..] == lines;
        } else {
          assert lines[k..] == lines[1..][k - 1..];
        }
      }
    }
  }

  lemma MatchesAreFourLines(lines: seq<string>)
    requires MatchAt(lines).Some?
    ensures |lines| >= 4
  {
  }

  lemma MatchSays(lines: seq<string>, i: nat, task: Task)
    requires i + 4 <= |lines| && MatchAt(lines[i..]).Some?
    requires var groups := MatchAt(lines[i..]).value;
             && ParseState(groups.start) == Ok(task.start) && ParseState(groups.goal) == Ok(task.goal)
             && ParseOperations(groups.operations) == task.operations && groups.limit == task.limit
    ensures Says(lines, i, task)
  {
    var four := lines[i..];
    assert four[0] == lines[i] && four[1] == lines[i + 1] && four[2] == lines[i + 2] && four[3] == lines[i + 3];
    var groups := MatchAt(four).value;
    AfterIsTheRest(START, lines[i]);
    AfterIsTheRest(GOAL, lines[i + 1]);
    AfterIsTheRest(ALLOWED, lines[i + 2]);
    hide After, ParseState, ParseOperations, ParseLimit, StateText, Strip, IsLimitLine, DigitState;
    ParsedStateIsWritten(groups.start);
    ParsedStateIsWritten(groups.goal);
    ParsedLimitIsWritten(lines[i + 3]);
  }

  /** Whatever `parse` accepts stands in the text as the task it returns, in the first four
      lines that look like one. */
  lemma ParseReadsWhatIsWritten(text: string) returns (i: nat)
    requires Parse(text).Ok?
    ensures Says(Split(text, '\n'), i, Parse(text).value)
    ensures forall k: nat :: k < i ==> !LooksLikeATask(Split(text, '\n'), k)
  {
    hide Search, Split, ParseOperations, ParseState, MatchAt, Says, Fault, LooksLikeATask;
    var lines := Split(text, '\n');
    i := SearchFindsAMatch(lines);
    MatchSays(lines, i, Parse(text).value);
    forall k: nat | k < i ensures !LooksLikeATask(lines, k) {
      MatchesLookLikeATask(lines, k);
    }
  }

  /** Four lines with the words of a task and something behind each of them. */
  ghost predicate LooksLikeATask(lines: seq<string>, i: nat) {
    && i + 4 <= |lines|
    && (exists text :: text != "" && lines[i] == START + text)
    && (exists text :: text != "" && lines[i + 1] == GOAL + text)
    && (exists text :: text != "" && lines[i + 2] == ALLOWED + text)
    && SaysSomeLimit(lines[i + 3])
  }

  ghost predicate SaysSomeLimit(line: string) {
    exists limit :: IsLimitLine(line, limit)
  }

  lemma AfterIsSomething(prefix: string, line: string)
    ensures After(prefix, line).Some? <==> exists text :: text != "" && line == prefix + text
  {
    if After(prefix, line).Some? {
      AfterIsTheRest(prefix, line);
    }
    if text :| text != "" && line == prefix + text {
      AfterPrefix(prefix, text);
    }
  }

  lemma LimitLineParses(line: string, digits: string, tail: string, limit: nat)
    requires SaysLimit(line, digits, tail, limit)
    ensures ParseLimit(line) == Some(limit)
  {
    hide ParseLimit, DecimalValue;
    DigitsThenTail(digits, tail);
    assert AT_MOST + (digits + tail) == AT_MOST + digits + tail;
  }

  lemma LimitLinesParse(line: string)
    ensures ParseLimit(line).Some? <==> SaysSomeLimit(line)
  {
    if ParseLimit(line).Some? {
      ParsedLimitIsWritten(line);
    }
    hide ParseLimit, SaysLimit;
    if limit :| IsLimitLine(line, limit) {
      var digits, tail :| SaysLimit(line, digits, tail, limit);
      LimitLineParses(line, digits, tail, limit);
    }
  }

  lemma MatchesLookLikeATask(lines: seq<string>, i: nat)
    requires i <= |lines|
    ensures MatchAt(lines[i..]).Some? <==> LooksLikeATask(lines, i)
  {
    if i + 4 <= |lines| {
      var four := lines[i..];
      assert four[0] == lines[i] && four[1] == lines[i + 1] && four[2] == lines[i + 2] && four[3] == lines[i + 3];
      AfterIsSomething(START, lines[i]);
      AfterIsSomething(GOAL, lines[i + 1]);
      AfterIsSomething(ALLOWED, lines[i + 2]);
      LimitLinesParse(lines[i + 3]);
      hide After, ParseLimit, SaysSomeLimit;
    }
  }

  lemma LinesAre(task: Task)
    requires WellMade(task)
    ensures DigitState(task.start) && DigitState(task.goal)
    ensures |TaskLines(task)| == 4
    ensures TaskLines(task)[0] == START + StateText(task.start) && TaskLines(task)[1] == GOAL + StateText(task.goal)
    ensures TaskLines(task)[2] == ALLOWED + OperationsText(task.operations) && TaskLines(task)[3] == LimitLine(task.limit)
  {
    WellMadeStates(task);
    hide StateText, OperationsText, LimitLine, WellMade;
  }

  lemma StartLine()
    ensures DigitState([3, 1]) && START + StateText([3, 1]) == "Start: A=3 B=1"
  {
    TwoRegisters(3, 1);
    hide StateText;
  }

  lemma GoalLine()
    ensures DigitState([1, 3]) && GOAL + StateText([1, 3]) == "Goal: A=1 B=3"
  {
    TwoRegisters(1, 3);
    hide StateText;
  }

  lemma OperationsLine()
    ensures ALLOWED + OperationsText(["swap"]) == "Allowed commands: swap"
  {
  }

  /** A task as it stands in a prompt. */
  lemma RenderedTask()
    ensures var task := Task(MACHINE, [3, 1], [1, 3], ["swap"], 1);
            && WellMade(task) && |TaskLines(task)| == 4
            && TaskLines(task)[0] == "Start: A=3 B=1" && TaskLines(task)[1] == "Goal: A=1 B=3"
            && TaskLines(task)[2] == "Allowed commands: swap" && TaskLines(task)[3] == "Use at most 1 command."
  {
    hide *;
    var task := Task(MACHINE, [3, 1], [1, 3], ["swap"], 1);
    SwapTaskIsWellMade(task);
    LinesAre(task);
    StartLine();
    GoalLine();
    OperationsLine();
    OneCommand();
  }

  lemma SwapTaskIsWellMade(task: Task)
    requires task == Task(MACHINE, [3, 1], [1, 3], ["swap"], 1)
    ensures WellMade(task)
  {
    SwapAlone();
    hide InOrder;
    assert forall value :: value in task.start + task.goal ==> value == 1 || value == 3;
  }

  lemma OneCommand()
    ensures LimitLine(1) == "Use at most 1 command."
  {
    assert Decimal(1) == "1";
  }

  lemma SwapAlone()
    ensures InOrder(["swap"], OPERATIONS) == ["swap"]
  {
    assert OPERATIONS == ["add", "sub", "copy", "swap"];
    assert "add"[0] == 'a' && "sub"[1] == 'u' && "copy"[0] == 'c' && "swap"[0] == 's' && "swap"[1] == 'w';
    assert OPERATIONS[1..] == ["sub", "copy", "swap"] && OPERATIONS[1..][1..] == ["copy", "swap"];
    assert OPERATIONS[1..][1..][1..] == ["swap"] && ["swap"][1..] == [];
    assert InOrder(["swap"], ["swap"]) == ["swap"];
    assert InOrder(["swap"], ["copy", "swap"]) == ["swap"];
    assert InOrder(["swap"], ["sub", "copy", "swap"]) == ["swap"];
  }

  lemma TwoRegisters(a: nat, b: nat)
    requires a < 10 && b < 10
    ensures DigitState([a, b]) && StateText([a, b]) == ['A', '=', DigitOf(a), ' ', 'B', '=', DigitOf(b)]
  {
    var pairs := PairsOf([a, b]);
    PairsHold([a, b]);
    assert pairs == [('A', DigitOf(a)), ('B', DigitOf(b))];
    PairsTextUnfolds(pairs);
    PairsTextUnfolds(pairs[1..]);
  }
}
